/** TraineeMapper: Trainee <-> DTO projections and the partial update in
    which a null DTO field leaves the entity's field as it is. */
module TraineeMapper {
  import opened Wrappers
  import opened JavaLang
  import opened Entities
  import opened Dto

  /** The fields updateEntity may touch, and the account fields it must
      not, as one value. */
  datatype TraineeProfile = TraineeProfile(user: User, dateOfBirth: Option<Date>, address: JString)

  function Profile(trainee: Trainee): TraineeProfile
    reads trainee
  {
    TraineeProfile(trainee.user, trainee.dateOfBirth, trainee.address)
  }

  /** The usernames of a set of entities, collected into a set. */
  function TrainerUsernames(trainers: set<Trainer>): (names: set<JString>)
    reads trainers
    ensures forall tr :: tr in trainers ==> tr.user.username in names
    ensures forall u :: u in names ==> exists tr :: tr in trainers && tr.user.username == u
    ensures |names| <= |trainers|
  {
    var names := set tr | tr in trainers :: tr.user.username;
    CollectedSetIsNoLarger(trainers, names);
    names
  }

  /** A set collected by mapping over a set has no more elements. */
  lemma {:induction false} CollectedSetIsNoLarger(trainers: set<Trainer>, names: set<JString>)
    requires names == set tr | tr in trainers :: tr.user.username
    ensures |names| <= |trainers|
    decreases |trainers|
  {
    if trainers != {} {
      var tr :| tr in trainers;
      var rest := trainers - {tr};
      var restNames := set t | t in rest :: t.user.username;
      CollectedSetIsNoLarger(rest, restNames);
      assert names == restNames + {tr.user.username};
    }
  }

  /** TraineeMapper.toEntity */
  method ToEntity(dto: TraineeCreateDto) returns (trainee: Trainee)
    ensures fresh(trainee)
    ensures trainee.user == NewUser.(firstName := dto.firstName, lastName := dto.lastName, isActive := true)
    ensures trainee.dateOfBirth == dto.dateOfBirth && trainee.address == dto.address
    ensures trainee.trainers == None
    ensures ToDto(trainee) == TraineeResponseDto(None, dto.firstName, dto.lastName, true,
                                                 dto.dateOfBirth, dto.address, None)
  {
    trainee := new Trainee();
    trainee.user := trainee.user.(firstName := dto.firstName);
    trainee.user := trainee.user.(lastName := dto.lastName);
    trainee.dateOfBirth := dto.dateOfBirth;
    trainee.address := dto.address;
    trainee.user := trainee.user.(isActive := true);
  }

  /** TraineeMapper.toDto */
  function ToDto(trainee: Trainee): (dto: TraineeResponseDto)
    reads trainee, RosterOf(trainee)
    ensures dto.username == trainee.user.username
    ensures dto.firstName == trainee.user.firstName && dto.lastName == trainee.user.lastName
    ensures dto.active == trainee.user.isActive
    ensures dto.dateOfBirth == trainee.dateOfBirth && dto.address == trainee.address
    ensures dto.trainerUsernames.Some? <==> trainee.trainers.Some?
    ensures trainee.trainers.Some? ==>
              forall u :: u in dto.trainerUsernames.value <==>
                            exists tr :: tr in trainee.trainers.value && tr.user.username == u
  {
    TraineeResponseDto(
      trainee.user.username,
      trainee.user.firstName,
      trainee.user.lastName,
      trainee.user.isActive,
      trainee.dateOfBirth,
      trainee.address,
      if trainee.trainers.Some? then Some(TrainerUsernames(trainee.trainers.value)) else None)
  }

  /** The profile updateEntity leaves behind. */
  function Patched(p: TraineeProfile, dto: TraineeUpdateDto): (r: TraineeProfile)
    ensures r.user.id == p.user.id && r.user.username == p.user.username
    ensures r.user.password == p.user.password && r.user.isActive == p.user.isActive
    ensures r.user.firstName == (if dto.firstName.Some? then dto.firstName else p.user.firstName)
    ensures r.user.lastName == (if dto.lastName.Some? then dto.lastName else p.user.lastName)
    ensures r.dateOfBirth == (if dto.dateOfBirth.Some? then dto.dateOfBirth else p.dateOfBirth)
    ensures r.address == (if dto.address.Some? then dto.address else p.address)
  {
    TraineeProfile(
      p.user.(firstName := Overwrite(p.user.firstName, dto.firstName),
              lastName := Overwrite(p.user.lastName, dto.lastName)),
      Overwrite(p.dateOfBirth, dto.dateOfBirth),
      Overwrite(p.address, dto.address))
  }

  /** TraineeMapper.updateEntity */
  method UpdateEntity(trainee: Trainee, dto: TraineeUpdateDto)
    modifies trainee`user, trainee`dateOfBirth, trainee`address
    ensures Profile(trainee) == Patched(old(Profile(trainee)), dto)
  {
    if dto.firstName.Some? {
      trainee.user := trainee.user.(firstName := dto.firstName);
    }
    if dto.lastName.Some? {
      trainee.user := trainee.user.(lastName := dto.lastName);
    }
    if dto.dateOfBirth.Some? {
      trainee.dateOfBirth := dto.dateOfBirth;
    }
    if dto.address.Some? {
      trainee.address := dto.address;
    }
  }

  // ---------------------------------------------------------------------
  // Properties of the partial update

  /** Applying the same update twice is applying it once. */
  lemma PatchedIdempotent(p: TraineeProfile, dto: TraineeUpdateDto)
    ensures Patched(Patched(p, dto), dto) == Patched(p, dto)
  {
  }

  /** A DTO whose every field is null changes nothing, whatever its active flag. */
  lemma PatchedByEmptyDtoIsIdentity(p: TraineeProfile, dto: TraineeUpdateDto)
    requires dto.firstName == None && dto.lastName == None
    requires dto.dateOfBirth == None && dto.address == None
    ensures Patched(p, dto) == p
  {
  }

  /** The DTO's active flag is never read: two DTOs that differ only in it
      update alike. */
  lemma PatchedIgnoresActive(p: TraineeProfile, dto: TraineeUpdateDto, active: bool)
    ensures Patched(p, dto.(active := active)) == Patched(p, dto)
  {
  }

  /** Updates compose field by field, the later non-null value winning. */
  lemma PatchedComposes(p: TraineeProfile, first: TraineeUpdateDto, second: TraineeUpdateDto)
    ensures Patched(Patched(p, first), second) ==
            Patched(p, TraineeUpdateDto(
              Overwrite(first.firstName, second.firstName),
              Overwrite(first.lastName, second.lastName),
              Overwrite(first.dateOfBirth, second.dateOfBirth),
              Overwrite(first.address, second.address),
              second.active))
  {
  }
}
