/** TrainerMapper: Trainer <-> DTO projections and the partial update in
    which a null DTO field leaves the entity's field as it is. */
module TrainerMapper {
  import opened Wrappers
  import opened JavaLang
  import opened Entities
  import opened Dto

  /** The fields updateEntity may touch, and the account fields it must
      not, as one value. */
  datatype TrainerProfile = TrainerProfile(user: User, specialization: JString)

  function Profile(trainer: Trainer): TrainerProfile
    reads trainer
  {
    TrainerProfile(trainer.user, trainer.specialization)
  }

  /** The usernames of a set of trainees, collected into a set. */
  function TraineeUsernames(trainees: set<Trainee>): (names: set<JString>)
    reads trainees
    ensures forall t :: t in trainees ==> t.user.username in names
    ensures forall u :: u in names ==> exists t :: t in trainees && t.user.username == u
    ensures |names| <= |trainees|
  {
    var names := set t | t in trainees :: t.user.username;
    CollectedSetIsNoLarger(trainees, names);
    names
  }

  /** A set collected by mapping over a set has no more elements. */
  lemma {:induction false} CollectedSetIsNoLarger(trainees: set<Trainee>, names: set<JString>)
    requires names == set t | t in trainees :: t.user.username
    ensures |names| <= |trainees|
    decreases |trainees|
  {
    if trainees != {} {
      var t :| t in trainees;
      var rest := trainees - {t};
      var restNames := set x | x in rest :: x.user.username;
      CollectedSetIsNoLarger(rest, restNames);
      assert names == restNames + {t.user.username};
    }
  }

  /** TrainerMapper.toEntity */
  method ToEntity(dto: TrainerCreateDto) returns (trainer: Trainer)
    ensures fresh(trainer)
    ensures trainer.user == NewUser.(firstName := dto.firstName, lastName := dto.lastName, isActive := true)
    ensures trainer.specialization == dto.specialization
    ensures trainer.trainees == None
    ensures ToDto(trainer) == TrainerResponseDto(None, dto.firstName, dto.lastName, true,
                                                 dto.specialization, None)
  {
    trainer := new Trainer();
    trainer.user := trainer.user.(firstName := dto.firstName);
    trainer.user := trainer.user.(lastName := dto.lastName);
    trainer.specialization := dto.specialization;
    trainer.user := trainer.user.(isActive := true);
  }

  /** TrainerMapper.toDto */
  function ToDto(trainer: Trainer): (dto: TrainerResponseDto)
    reads trainer, TraineesOf(trainer)
    ensures dto.username == trainer.user.username
    ensures dto.firstName == trainer.user.firstName && dto.lastName == trainer.user.lastName
    ensures dto.active == trainer.user.isActive
    ensures dto.specialization == trainer.specialization
    ensures dto.traineeUsernames.Some? <==> trainer.trainees.Some?
    ensures trainer.trainees.Some? ==>
              forall u :: u in dto.traineeUsernames.value <==>
                            exists t :: t in trainer.trainees.value && t.user.username == u
  {
    TrainerResponseDto(
      trainer.user.username,
      trainer.user.firstName,
      trainer.user.lastName,
      trainer.user.isActive,
      trainer.specialization,
      if trainer.trainees.Some? then Some(TraineeUsernames(trainer.trainees.value)) else None)
  }

  /** The profile updateEntity leaves behind. */
  function Patched(p: TrainerProfile, dto: TrainerUpdateDto): (r: TrainerProfile)
    ensures r.user.id == p.user.id && r.user.username == p.user.username
    ensures r.user.password == p.user.password && r.user.isActive == p.user.isActive
    ensures r.user.firstName == (if dto.firstName.Some? then dto.firstName else p.user.firstName)
    ensures r.user.lastName == (if dto.lastName.Some? then dto.lastName else p.user.lastName)
    ensures r.specialization == (if dto.specialization.Some? then dto.specialization else p.specialization)
  {
    TrainerProfile(
      p.user.(firstName := Overwrite(p.user.firstName, dto.firstName),
              lastName := Overwrite(p.user.lastName, dto.lastName)),
      Overwrite(p.specialization, dto.specialization))
  }

  /** TrainerMapper.updateEntity */
  method UpdateEntity(trainer: Trainer, dto: TrainerUpdateDto)
    modifies trainer`user, trainer`specialization
    ensures Profile(trainer) == Patched(old(Profile(trainer)), dto)
  {
    if dto.firstName.Some? {
      trainer.user := trainer.user.(firstName := dto.firstName);
    }
    if dto.lastName.Some? {
      trainer.user := trainer.user.(lastName := dto.lastName);
    }
    if dto.specialization.Some? {
      trainer.specialization := dto.specialization;
    }
  }

  // ---------------------------------------------------------------------
  // Properties of the partial update

  /** Applying the same update twice is applying it once. */
  lemma PatchedIdempotent(p: TrainerProfile, dto: TrainerUpdateDto)
    ensures Patched(Patched(p, dto), dto) == Patched(p, dto)
  {
  }

  /** A DTO whose every field is null changes nothing. */
  lemma PatchedByEmptyDtoIsIdentity(p: TrainerProfile)
    ensures Patched(p, TrainerUpdateDto(None, None, None)) == p
  {
  }
}
