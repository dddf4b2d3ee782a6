/** TrainerServiceImpl: creation, validation, credential checks, the
    activation flag, password change and the trainee-roster update.

    The repositories are maps from username to entity; findByUsername is
    Entities.FindByUsername. The username list findUsernamesStartingWith
    returns is a parameter, since the LIKE query is evaluated by the
    database. */
module TrainerService {
  import opened Wrappers
  import opened JavaLang
  import opened Entities
  import opened Dto
  import opened TrainerMapper
  import UsernameGenerator
  import PasswordGenerator

  // ---------------------------------------------------------------------
  // Validation

  /** validateCreate: every field present and not blank, checked in
      the order first name, last name, specialization. */
  function ValidateCreate(dto: TrainerCreateDto): (r: Outcome<Exception>)
    ensures r.Pass? <==> !NullOrBlank(dto.firstName) && !NullOrBlank(dto.lastName)
                         && !NullOrBlank(dto.specialization)
    ensures NullOrBlank(dto.firstName) ==> r == Fail(IllegalArgument("First name cannot be empty"))
    ensures !NullOrBlank(dto.firstName) && NullOrBlank(dto.lastName) ==>
              r == Fail(IllegalArgument("Last name cannot be empty"))
    ensures !NullOrBlank(dto.firstName) && !NullOrBlank(dto.lastName) && NullOrBlank(dto.specialization) ==>
              r == Fail(IllegalArgument("Specialization cannot be empty"))
  {
    if NullOrBlank(dto.firstName) then Fail(IllegalArgument("First name cannot be empty"))
    else if NullOrBlank(dto.lastName) then Fail(IllegalArgument("Last name cannot be empty"))
    else if NullOrBlank(dto.specialization) then Fail(IllegalArgument("Specialization cannot be empty"))
    else Pass
  }

  /** validateUpdate: a null field is allowed, a present but blank one is
      not, checked in the same order. */
  function ValidateUpdate(dto: TrainerUpdateDto): (r: Outcome<Exception>)
    ensures r.Pass? <==> !PresentButBlank(dto.firstName) && !PresentButBlank(dto.lastName)
                         && !PresentButBlank(dto.specialization)
    ensures PresentButBlank(dto.firstName) ==> r == Fail(IllegalArgument("First name cannot be blank"))
    ensures !PresentButBlank(dto.firstName) && PresentButBlank(dto.lastName) ==>
              r == Fail(IllegalArgument("Last name cannot be blank"))
    ensures !PresentButBlank(dto.firstName) && !PresentButBlank(dto.lastName)
            && PresentButBlank(dto.specialization) ==>
              r == Fail(IllegalArgument("Specialization cannot be blank"))
  {
    if PresentButBlank(dto.firstName) then Fail(IllegalArgument("First name cannot be blank"))
    else if PresentButBlank(dto.lastName) then Fail(IllegalArgument("Last name cannot be blank"))
    else if PresentButBlank(dto.specialization) then Fail(IllegalArgument("Specialization cannot be blank"))
    else Pass
  }

  /** Whatever passes creation passes as an update with the same fields. */
  lemma CreateValidIsUpdateValid(dto: TrainerCreateDto)
    requires ValidateCreate(dto).Pass?
    ensures ValidateUpdate(TrainerUpdateDto(dto.firstName, dto.lastName, dto.specialization)).Pass?
  {
  }

  /** An update that sets nothing is valid. */
  lemma EmptyUpdateIsValid()
    ensures ValidateUpdate(TrainerUpdateDto(None, None, None)) == Pass
  {
  }

  /** A validated update keeps every non-blank field non-blank. */
  lemma ValidUpdateKeepsFieldsFilled(p: TrainerProfile, dto: TrainerUpdateDto)
    requires ValidateUpdate(dto).Pass?
    requires !NullOrBlank(p.user.firstName) && !NullOrBlank(p.user.lastName) && !NullOrBlank(p.specialization)
    ensures var q := Patched(p, dto);
            !NullOrBlank(q.user.firstName) && !NullOrBlank(q.user.lastName) && !NullOrBlank(q.specialization)
  {
  }

  // ---------------------------------------------------------------------
  // Creation

  /** create, as written: the trainer gets the generated username and
      active = true, and no password. */
  method Create(dto: TrainerCreateDto, existingUsernames: seq<string>)
    returns (r: Result<TrainerResponseDto, Exception>, trainer: Trainer?)
    ensures ValidateCreate(dto).Fail? ==> r == Err(ValidateCreate(dto).error) && trainer == null
    ensures ValidateCreate(dto).Pass? ==>
              && trainer != null && fresh(trainer)
              && trainer.user == NewUser.(
                   firstName := dto.firstName, lastName := dto.lastName, isActive := true,
                   username := Some(UsernameGenerator.Generate(dto.firstName.value, dto.lastName.value,
                                                               existingUsernames)))
              && trainer.specialization == dto.specialization && trainer.trainees == None
              && r == Ok(ToDto(trainer))
  {
    var valid := ValidateCreate(dto);
    if valid.Fail? {
      return Err(valid.error), null;
    }
    var generatedUsername := UsernameGenerator.Generate(dto.firstName.value, dto.lastName.value, existingUsernames);
    trainer := ToEntity(dto);
    trainer.user := trainer.user.(username := Some(generatedUsername));
    r := Ok(ToDto(trainer));
  }

  /** A trainer stored without a password cannot log in: the password
      comparison dereferences null. Every trainer create makes is such a
      trainer. */
  lemma TrainerWithoutPasswordCannotLogIn(repo: map<string, Trainer>, username: string, password: JString)
    requires username in repo && repo[username].user.isActive && repo[username].user.password == None
    ensures ValidateCredentials(repo, Some(username), password) == Err(NullPointer)
  {
  }

  /** create as intended: as above, and the trainer also gets a generated
      password, as trainees do. */
  method CreateWithPassword(dto: TrainerCreateDto, existingUsernames: seq<string>, draws: seq<int>)
    returns (r: Result<TrainerResponseDto, Exception>, trainer: Trainer?)
    requires PasswordGenerator.ValidDraws(draws)
    ensures ValidateCreate(dto).Fail? ==> r == Err(ValidateCreate(dto).error) && trainer == null
    ensures ValidateCreate(dto).Pass? ==>
              && trainer != null && fresh(trainer)
              && trainer.user.username == Some(UsernameGenerator.Generate(dto.firstName.value, dto.lastName.value,
                                                                          existingUsernames))
              && trainer.user.firstName == dto.firstName && trainer.user.lastName == dto.lastName
              && trainer.user.isActive && trainer.user.id == None
              && trainer.specialization == dto.specialization && trainer.trainees == None
              && trainer.user.password.Some? && |trainer.user.password.value| == PasswordGenerator.PASSWORD_LENGTH
              && !IsBlank(trainer.user.password.value)
              && r == Ok(ToDto(trainer))
    ensures ValidateCreate(dto).Pass? ==>
              var store := map[trainer.user.username.value := trainer];
              ValidateCredentials(store, trainer.user.username, trainer.user.password) == r
  {
    var valid := ValidateCreate(dto);
    if valid.Fail? {
      return Err(valid.error), null;
    }
    var generatedUsername := UsernameGenerator.Generate(dto.firstName.value, dto.lastName.value, existingUsernames);
    trainer := ToEntity(dto);
    trainer.user := trainer.user.(username := Some(generatedUsername));
    var password := PasswordGenerator.Generate(draws);
    PasswordGenerator.GeneratedPasswordIsNotBlank(draws, password);
    trainer.user := trainer.user.(password := Some(password));
    r := Ok(ToDto(trainer));
  }

  // ---------------------------------------------------------------------
  // Credentials and account state

  /** The objects the response DTOs of a store's trainers are read from. */
  function LinkedTrainees(trainers: set<Trainer>): set<Trainee>
    reads trainers
  {
    set tr, t | tr in trainers && t in TraineesOf(tr) :: t
  }

  /** validateCredentials: not found, then deactivated, then a password
      mismatch; the stored password is dereferenced, so a null one throws. */
  function ValidateCredentials(repo: map<string, Trainer>, username: JString, password: JString)
    : (r: Result<TrainerResponseDto, Exception>)
    reads repo.Values, LinkedTrainees(repo.Values)
    ensures FindByUsername(repo, username).None? ==> r == Err(Runtime("Trainer not found"))
    ensures FindByUsername(repo, username).Some? ==>
              var trainer := FindByUsername(repo, username).value;
              && (!trainer.user.isActive ==> r == Err(Runtime("Trainer is deactivated")))
              && (trainer.user.isActive && trainer.user.password.None? ==> r == Err(NullPointer))
              && (trainer.user.isActive && trainer.user.password.Some? && trainer.user.password != password ==>
                    r == Err(Runtime("Invalid password")))
    ensures r.Ok? <==> FindByUsername(repo, username).Some?
                       && FindByUsername(repo, username).value.user.isActive
                       && FindByUsername(repo, username).value.user.password.Some?
                       && FindByUsername(repo, username).value.user.password == password
    ensures r.Ok? ==> r.value == ToDto(FindByUsername(repo, username).value)
  {
    match FindByUsername(repo, username)
    case None => Err(Runtime("Trainer not found"))
    case Some(trainer) =>
      assert TraineesOf(trainer) <= LinkedTrainees(repo.Values);
      if !trainer.user.isActive then Err(Runtime("Trainer is deactivated"))
      else if trainer.user.password.None? then Err(NullPointer)
      else if trainer.user.password != password then Err(Runtime("Invalid password"))
      else Ok(ToDto(trainer))
  }

  /** An inactive trainer is refused even with the right password. */
  lemma DeactivatedRefusedWithRightPassword(repo: map<string, Trainer>, username: string)
    requires username in repo && !repo[username].user.isActive
    ensures ValidateCredentials(repo, Some(username), repo[username].user.password)
            == Err(Runtime("Trainer is deactivated"))
  {
  }

  /** activate */
  method Activate(repo: map<string, Trainer>, username: JString) returns (r: Result<TrainerResponseDto, Exception>)
    modifies Found(repo, username)`user
    ensures FindByUsername(repo, username).None? ==> r == Err(Runtime("Trainer not found"))
    ensures FindByUsername(repo, username).Some? ==>
              var trainer := FindByUsername(repo, username).value;
              && trainer.user == old(trainer.user).(isActive := true)
              && r == Ok(ToDto(trainer))
              && (trainer.user.password.Some? ==>
                    ValidateCredentials(repo, username, trainer.user.password) == r)
  {
    var found := FindByUsername(repo, username);
    if found.None? {
      return Err(Runtime("Trainer not found"));
    }
    var trainer := found.value;
    trainer.user := trainer.user.(isActive := true);
    assert TraineesOf(trainer) <= LinkedTrainees(repo.Values);
    r := Ok(ToDto(trainer));
  }

  /** deactivate */
  method Deactivate(repo: map<string, Trainer>, username: JString) returns (r: Result<TrainerResponseDto, Exception>)
    modifies Found(repo, username)`user
    ensures FindByUsername(repo, username).None? ==> r == Err(Runtime("Trainer not found"))
    ensures FindByUsername(repo, username).Some? ==>
              var trainer := FindByUsername(repo, username).value;
              && trainer.user == old(trainer.user).(isActive := false)
              && r == Ok(ToDto(trainer))
              && forall password :: ValidateCredentials(repo, username, password)
                                      == Err(Runtime("Trainer is deactivated"))
  {
    var found := FindByUsername(repo, username);
    if found.None? {
      return Err(Runtime("Trainer not found"));
    }
    var trainer := found.value;
    trainer.user := trainer.user.(isActive := false);
    r := Ok(ToDto(trainer));
  }

  /** changePassword: the blank guard, then the repository's
      changePassword, which fails for an unknown username. */
  method ChangePassword(repo: map<string, Trainer>, username: JString, newPassword: JString)
    returns (r: Outcome<Exception>)
    modifies Found(repo, username)`user
    ensures NullOrBlank(newPassword) ==>
              r == Fail(IllegalArgument("Password cannot be blank")) && unchanged(Found(repo, username))
    ensures !NullOrBlank(newPassword) && FindByUsername(repo, username).None? ==>
              r == Fail(IllegalArgument("Trainer not found with username " + StringValueOf(username)))
    ensures !NullOrBlank(newPassword) && FindByUsername(repo, username).Some? ==>
              var trainer := FindByUsername(repo, username).value;
              && r == Pass
              && trainer.user == old(trainer.user).(password := newPassword)
              && (trainer.user.isActive ==> ValidateCredentials(repo, username, newPassword).Ok?)
  {
    if NullOrBlank(newPassword) {
      return Fail(IllegalArgument("Password cannot be blank"));
    }
    var found := FindByUsername(repo, username);
    if found.None? {
      return Fail(IllegalArgument("Trainer not found with username " + StringValueOf(username)));
    }
    var trainer := found.value;
    trainer.user := trainer.user.(password := newPassword);
    r := Pass;
  }

  /** update: validation before the lookup, then the partial update. */
  method Update(repo: map<string, Trainer>, username: JString, dto: TrainerUpdateDto)
    returns (r: Result<TrainerResponseDto, Exception>)
    modifies Found(repo, username)`user, Found(repo, username)`specialization
    ensures ValidateUpdate(dto).Fail? ==> r == Err(ValidateUpdate(dto).error) && unchanged(Found(repo, username))
    ensures ValidateUpdate(dto).Pass? && FindByUsername(repo, username).None? ==> r == Err(Runtime("Trainer not found"))
    ensures ValidateUpdate(dto).Pass? && FindByUsername(repo, username).Some? ==>
              var trainer := FindByUsername(repo, username).value;
              && Profile(trainer) == Patched(old(Profile(trainer)), dto)
              && r == Ok(ToDto(trainer))
  {
    var valid := ValidateUpdate(dto);
    if valid.Fail? {
      return Err(valid.error);
    }
    var found := FindByUsername(repo, username);
    if found.None? {
      return Err(Runtime("Trainer not found"));
    }
    var trainer := found.value;
    UpdateEntity(trainer, dto);
    r := Ok(ToDto(trainer));
  }

  // ---------------------------------------------------------------------
  // The roster update

  /** The first phase of updateTraineeTrainers: remove the trainee from each
      trainer on its roster, then clear the roster. A trainer with a null
      trainee set throws NullPointerException; the roster is then not yet
      cleared, and each trainer on it is either untouched or has already
      lost the trainee. A completed clearing keeps the relation symmetric
      between any trainees and trainers. */
  method ClearRoster(trainee: Trainee, ghost trainees: set<Trainee>, ghost trainers: set<Trainer>)
    returns (r: Outcome<Exception>)
    modifies trainee`trainers, RosterOf(trainee)`trainees
    ensures r.Fail? <==> old(HasNullBackLink(trainee))
    ensures r.Fail? ==> r.error == NullPointer
    ensures r.Fail? ==> trainee.trainers == old(trainee.trainers)
    ensures r.Fail? ==> forall tr :: tr in old(RosterOf(trainee)) ==>
                          tr.trainees == old(tr.trainees) ||
                          (old(tr.trainees).Some? && tr.trainees == Some(old(tr.trainees).value - {trainee}))
    ensures r.Pass? ==> trainee.trainers == (if old(trainee.trainers).Some? then Some({}) else None)
    ensures r.Pass? ==> forall tr :: tr in old(RosterOf(trainee)) ==>
                          tr.trainees == Some(old(tr.trainees).value - {trainee})
    ensures r.Pass? ==> forall tr :: tr in old(RosterOf(trainee)) ==>
                          tr.trainees.Some? && tr.trainees.value - {trainee} == old(tr.trainees).value - {trainee}
    ensures r.Pass? && old(Symmetric(trainees, trainers)) ==> Symmetric(trainees, trainers)
  {
    if trainee.trainers.None? {
      return Pass;
    }
    var roster := trainee.trainers.value;
    var pending := roster;
    while pending != {}
      invariant pending <= roster
      invariant trainee.trainers == old(trainee.trainers)
      invariant forall tr :: tr in roster - pending ==>
                  old(tr.trainees).Some? && tr.trainees == Some(old(tr.trainees).value - {trainee})
      invariant forall tr :: tr in pending ==> tr.trainees == old(tr.trainees)
      decreases pending
    {
      var tr :| tr in pending;
      if tr.trainees.None? {
        return Fail(NullPointer);
      }
      tr.trainees := Some(tr.trainees.value - {trainee});
      pending := pending - {tr};
    }
    trainee.trainers := Some({});
    r := Pass;
    if old(Symmetric(trainees, trainers)) {
      forall t, tr | t in trainees && tr in trainers
        ensures tr in RosterOf(t) <==> t in TraineesOf(tr)
      {
        assert old(tr in RosterOf(t) <==> t in TraineesOf(tr));
        if tr in roster {
          assert TraineesOf(tr) == old(TraineesOf(tr)) - {trainee};
        } else {
          assert TraineesOf(tr) == old(TraineesOf(tr));
        }
        if t != trainee {
          assert RosterOf(t) == old(RosterOf(t));
        }
      }
    }
  }

  /** The second phase: look every username up, in order; the first one
      that is missing fails. */
  function ResolveTrainers(trainerRepo: map<string, Trainer>, usernames: seq<string>)
    : (r: Result<seq<Trainer>, Exception>)
    ensures r.Ok? <==> forall i :: 0 <= i < |usernames| ==> usernames[i] in trainerRepo
    ensures r.Ok? ==> |r.value| == |usernames| &&
                      forall i :: 0 <= i < |usernames| ==> r.value[i] == trainerRepo[usernames[i]]
    ensures r.Err? ==> exists i :: 0 <= i < |usernames| && usernames[i] !in trainerRepo &&
                                   (forall k :: 0 <= k < i ==> usernames[k] in trainerRepo) &&
                                   r.error == Runtime("Trainer not found: " + usernames[i])
  {
    if usernames == [] then Ok([])
    else if usernames[0] !in trainerRepo then Err(Runtime("Trainer not found: " + usernames[0]))
    else
      var rest := ResolveTrainers(trainerRepo, usernames[1..]);
      assert forall i :: 1 <= i < |usernames| ==> usernames[i] == usernames[1..][i - 1];
      match rest
      case Ok(trainers) => Ok([trainerRepo[usernames[0]]] + trainers)
      case Err(e) =>
        var j :| 0 <= j < |usernames[1..]| && usernames[1..][j] !in trainerRepo &&
                 (forall k :: 0 <= k < j ==> usernames[1..][k] in trainerRepo) &&
                 e == Runtime("Trainer not found: " + usernames[1..][j]);
        assert usernames[j + 1] == usernames[1..][j];
        Err(e)
  }

  /** The third phase: link each resolved trainer and the trainee on both
      sides, trainer side first. A null set on either side throws. On a
      throw, `failedAt` is the position reached: the trainers before it are
      linked on both sides, the one at it has gained the trainee if its own
      set was not the null one, and the trainers after it are untouched.
      A completed linking keeps the relation symmetric between any trainees
      and trainers. */
  method LinkAll(trainee: Trainee, trainers: seq<Trainer>, ghost trainees: set<Trainee>, ghost trainerSet: set<Trainer>)
    returns (r: Outcome<Exception>, ghost failedAt: nat)
    modifies trainee`trainers, Elements(trainers)`trainees
    ensures r.Fail? <==> |trainers| > 0 && (old(trainee.trainers).None? ||
                                           exists tr :: tr in Elements(trainers) && old(tr.trainees).None?)
    ensures r.Fail? ==> r.error == NullPointer
    ensures r.Pass? && |trainers| == 0 ==> trainee.trainers == old(trainee.trainers)
    ensures r.Pass? && |trainers| > 0 ==> trainee.trainers == Some(old(trainee.trainers).value + Elements(trainers))
    ensures r.Pass? ==> forall tr :: tr in Elements(trainers) ==> tr.trainees == Some(old(tr.trainees).value + {trainee})
    ensures r.Pass? && old(Symmetric(trainees, trainerSet)) ==> Symmetric(trainees, trainerSet)
    ensures r.Fail? ==> failedAt < |trainers|
    ensures r.Fail? ==> forall i :: 0 <= i < failedAt ==> old(trainers[i].trainees).Some?
    ensures r.Fail? ==> old(trainers[failedAt].trainees).None? || (failedAt == 0 && old(trainee.trainers).None?)
    ensures r.Fail? && failedAt == 0 ==> trainee.trainers == old(trainee.trainers)
    ensures r.Fail? && failedAt > 0 ==>
              old(trainee.trainers).Some? &&
              trainee.trainers == Some(old(trainee.trainers).value + Elements(trainers[..failedAt]))
    ensures r.Fail? ==> forall tr :: tr in Elements(trainers[..failedAt]) ==>
                          tr.trainees == Some(old(tr.trainees).value + {trainee})
    ensures r.Fail? ==> trainers[failedAt].trainees ==
                          if old(trainers[failedAt].trainees).Some?
                          then Some(old(trainers[failedAt].trainees).value + {trainee}) else None
    ensures r.Fail? ==> forall tr :: tr in Elements(trainers) && tr !in Elements(trainers[..failedAt + 1]) ==>
                          tr.trainees == old(tr.trainees)
    // the same, as a bound: only the trainee's membership in either set has changed
    ensures r.Fail? ==> (trainee.trainers.None? <==> old(trainee.trainers).None?) &&
                        RosterOf(trainee) <= old(RosterOf(trainee)) + Elements(trainers)
    ensures r.Fail? ==> forall tr :: tr in Elements(trainers) ==>
                          && (tr.trainees.None? <==> old(tr.trainees).None?)
                          && (tr.trainees.Some? ==> tr.trainees.value - {trainee} == old(tr.trainees).value - {trainee})
  {
    failedAt := 0;
    var j := 0;
    while j < |trainers|
      invariant 0 <= j <= |trainers|
      invariant j == 0 ==> trainee.trainers == old(trainee.trainers)
      invariant j > 0 ==> old(trainee.trainers).Some? &&
                          trainee.trainers == Some(old(trainee.trainers).value + Elements(trainers[..j]))
      invariant forall i :: 0 <= i < j ==> old(trainers[i].trainees).Some?
      invariant forall tr :: tr in Elements(trainers[..j]) ==> tr.trainees == Some(old(tr.trainees).value + {trainee})
      invariant forall tr :: tr in Elements(trainers) && tr !in Elements(trainers[..j]) ==> tr.trainees == old(tr.trainees)
    {
      var trainer := trainers[j];
      assert trainer in Elements(trainers);
      assert j == 0 ==> Elements(trainers[..j]) == {};
      assert Elements(trainers[..j + 1]) == Elements(trainers[..j]) + {trainer} by {
        assert trainers[..j + 1] == trainers[..j] + [trainer];
      }
      if trainer.trainees.None? {
        return Fail(NullPointer), j;
      }
      trainer.trainees := Some(trainer.trainees.value + {trainee});
      if trainee.trainers.None? {
        return Fail(NullPointer), j;
      }
      trainee.trainers := Some(trainee.trainers.value + {trainer});
      ghost var before := old(trainee.trainers).value;
      if j == 0 {
        assert before + {} + {trainer} == before + {trainer};
      }
      assert before + Elements(trainers[..j]) + {trainer} == before + Elements(trainers[..j + 1]);
      j := j + 1;
    }
    assert trainers[..j] == trainers;
    r := Pass;
    if old(Symmetric(trainees, trainerSet)) {
      forall t, tr | t in trainees && tr in trainerSet
        ensures tr in RosterOf(t) <==> t in TraineesOf(tr)
      {
        assert old(tr in RosterOf(t) <==> t in TraineesOf(tr));
        if tr in Elements(trainers) {
          assert TraineesOf(tr) == old(TraineesOf(tr)) + {trainee};
        } else {
          assert TraineesOf(tr) == old(TraineesOf(tr));
        }
        if t != trainee {
          assert RosterOf(t) == old(RosterOf(t));
        }
      }
    }
  }

  /** The response list: one DTO per resolved trainer, in order. */
  function ToDtos(trainers: seq<Trainer>): (dtos: seq<TrainerResponseDto>)
    reads trainers, LinkedTrainees(Elements(trainers))
    ensures |dtos| == |trainers|
    ensures forall i :: 0 <= i < |trainers| ==> dtos[i] == ToDto(trainers[i])
  {
    if trainers == [] then []
    else
      assert trainers[0] in Elements(trainers);
      assert Elements(trainers[1..]) <= Elements(trainers);
      [ToDto(trainers[0])] + ToDtos(trainers[1..])
  }

  /** The trainers listed on the rosters of the given trainees. */
  function Rosters(trainees: set<Trainee>): set<Trainer>
    reads trainees
  {
    set t, tr | t in trainees && tr in RosterOf(t) :: tr
  }

  /** The three phases for a trainee that was found: clear its links, look
      the trainers up, link the trainers found. On success the result is the
      resolved list. */
  method ReplaceTrainers(trainee: Trainee, trainerRepo: map<string, Trainer>, trainerUsernames: seq<string>,
                         ghost trainees: set<Trainee>)
    returns (r: Result<seq<Trainer>, Exception>)
    modifies trainee`trainers, RosterOf(trainee)`trainees, trainerRepo.Values`trainees
    ensures old(HasNullBackLink(trainee)) ==>
              && r == Err(NullPointer)
              && trainee.trainers == old(trainee.trainers)
              && (forall tr :: tr in old(RosterOf(trainee)) ==>
                    tr.trainees == old(tr.trainees) ||
                    (old(tr.trainees).Some? && tr.trainees == Some(old(tr.trainees).value - {trainee})))
              && (forall tr :: tr in trainerRepo.Values && tr !in old(RosterOf(trainee)) ==>
                    tr.trainees == old(tr.trainees))
    ensures !old(HasNullBackLink(trainee)) && ResolveTrainers(trainerRepo, trainerUsernames).Err? ==>
              && r == Err(ResolveTrainers(trainerRepo, trainerUsernames).error)
              && trainee.trainers == (if old(trainee.trainers).Some? then Some({}) else None)
              && (forall tr :: tr in old(RosterOf(trainee)) ==>
                    tr.trainees == Some(old(tr.trainees).value - {trainee}))
              && (forall tr :: tr in trainerRepo.Values && tr !in old(RosterOf(trainee)) ==>
                    tr.trainees == old(tr.trainees))
              && (old(Symmetric(trainees, trainerRepo.Values)) ==> Symmetric(trainees, trainerRepo.Values))
    ensures !old(HasNullBackLink(trainee)) && ResolveTrainers(trainerRepo, trainerUsernames).Ok? ==>
              && (r.Ok? <==> |trainerUsernames| == 0 ||
                             (old(trainee.trainers).Some? &&
                              forall tr :: tr in Elements(ResolveTrainers(trainerRepo, trainerUsernames).value) ==>
                                             old(tr.trainees).Some?))
              && (r.Err? ==>
                    && r.error == NullPointer
                    && var chosen := Elements(ResolveTrainers(trainerRepo, trainerUsernames).value);
                       && (trainee.trainers.None? <==> old(trainee.trainers).None?)
                       && RosterOf(trainee) <= chosen
                       && (forall tr :: tr in old(RosterOf(trainee)) && tr !in chosen ==>
                             tr.trainees == Some(old(tr.trainees).value - {trainee}))
                       && (forall tr :: tr in chosen ==>
                             && (tr.trainees.None? <==> old(tr.trainees).None?)
                             && (tr.trainees.Some? ==>
                                   tr.trainees.value - {trainee} == old(tr.trainees).value - {trainee}))
                       && (forall tr :: tr in trainerRepo.Values && tr !in old(RosterOf(trainee)) && tr !in chosen ==>
                             tr.trainees == old(tr.trainees)))
    ensures r.Ok? ==>
              && ResolveTrainers(trainerRepo, trainerUsernames) == r
              && var chosen := Elements(r.value);
                 && trainee.trainers == (if old(trainee.trainers).Some? then Some(chosen) else None)
                 && (forall tr :: tr in chosen ==>
                       old(tr.trainees).Some? && tr.trainees == Some(old(tr.trainees).value + {trainee}))
                 && (forall tr :: tr in old(RosterOf(trainee)) && tr !in chosen ==>
                       old(tr.trainees).Some? && tr.trainees == Some(old(tr.trainees).value - {trainee}))
                 && (forall tr :: tr in trainerRepo.Values && tr !in old(RosterOf(trainee)) && tr !in chosen ==>
                       tr.trainees == old(tr.trainees))
    ensures r.Ok? && trainee in trainees && old(Symmetric(trainees, trainerRepo.Values)) &&
            old(RosterOf(trainee)) <= trainerRepo.Values ==>
              Symmetric(trainees, trainerRepo.Values)
  {
    ghost var previous := RosterOf(trainee);
    var cleared := ClearRoster(trainee, trainees, trainerRepo.Values);
    if cleared.Fail? {
      return Err(cleared.error);
    }
    var resolved := ResolveTrainers(trainerRepo, trainerUsernames);
    if resolved.Err? {
      return resolved;
    }
    var trainers := resolved.value;
    assert Elements(trainers) <= trainerRepo.Values by {
      forall tr | tr in Elements(trainers) ensures tr in trainerRepo.Values {
        var i :| 0 <= i < |trainers| && trainers[i] == tr;
        assert trainerUsernames[i] in trainerRepo;
      }
    }
    assert forall tr :: tr in Elements(trainers) ==> (tr.trainees.None? <==> old(tr.trainees).None?);
    var linked, failedAt := LinkAll(trainee, trainers, trainees, trainerRepo.Values);
    if linked.Fail? {
      forall tr | tr in Elements(trainers)
        ensures && (tr.trainees.None? <==> old(tr.trainees).None?)
                && (tr.trainees.Some? ==> tr.trainees.value - {trainee} == old(tr.trainees).value - {trainee})
      {
        if tr in previous {
          assert old(tr.trainees).value - {trainee} - {trainee} == old(tr.trainees).value - {trainee};
        }
      }
      return Err(linked.error);
    }
    ghost var chosen := Elements(trainers);
    forall tr | tr in chosen
      ensures old(tr.trainees).Some? && tr.trainees == Some(old(tr.trainees).value + {trainee})
    {
      if tr in previous {
        assert old(tr.trainees).value - {trainee} + {trainee} == old(tr.trainees).value + {trainee};
      }
    }
    if |trainers| == 0 {
      assert chosen == {};
    } else {
      assert {} + chosen == chosen;
    }
    r := resolved;
  }

  /** updateTraineeTrainers: replace a trainee's trainers by the trainers
      named in the list, on both sides of the relation. The old links are
      cleared before the names are looked up, so a missing name leaves the
      trainee with an empty roster. */
  method UpdateTraineeTrainers(traineeRepo: map<string, Trainee>, trainerRepo: map<string, Trainer>,
                               traineeUsername: JString, trainerUsernames: seq<string>)
    returns (r: Result<seq<TrainerResponseDto>, Exception>)
    modifies Found(traineeRepo, traineeUsername)`trainers
    modifies Rosters(Found(traineeRepo, traineeUsername))`trainees, trainerRepo.Values`trainees
    // checks before any change
    ensures NullOrBlank(traineeUsername) ==>
              && r == Err(IllegalArgument("Trainee username must not be blank"))
              && unchanged(Found(traineeRepo, traineeUsername)) && unchanged(trainerRepo.Values)
              && unchanged(Rosters(Found(traineeRepo, traineeUsername)))
    ensures !NullOrBlank(traineeUsername) && FindByUsername(traineeRepo, traineeUsername).None? ==>
              r == Err(Runtime("Trainee not found")) && unchanged(trainerRepo.Values)
    // failures after the lookup
    ensures !NullOrBlank(traineeUsername) && FindByUsername(traineeRepo, traineeUsername).Some? ==>
              var trainee := FindByUsername(traineeRepo, traineeUsername).value;
              var resolved := ResolveTrainers(trainerRepo, trainerUsernames);
              && (old(HasNullBackLink(trainee)) ==>
                    && r == Err(NullPointer)
                    && trainee.trainers == old(trainee.trainers)
                    && (forall tr :: tr in old(RosterOf(trainee)) ==>
                          tr.trainees == old(tr.trainees) ||
                          (old(tr.trainees).Some? && tr.trainees == Some(old(tr.trainees).value - {trainee})))
                    && (forall tr :: tr in trainerRepo.Values && tr !in old(RosterOf(trainee)) ==>
                          tr.trainees == old(tr.trainees)))
              && (!old(HasNullBackLink(trainee)) && resolved.Err? ==>
                    && r == Err(resolved.error)
                    && trainee.trainers == (if old(trainee.trainers).Some? then Some({}) else None)
                    && (forall tr :: tr in old(RosterOf(trainee)) ==>
                          tr.trainees == Some(old(tr.trainees).value - {trainee}))
                    && (forall tr :: tr in trainerRepo.Values && tr !in old(RosterOf(trainee)) ==>
                          tr.trainees == old(tr.trainees))
                    && (old(Symmetric(traineeRepo.Values, trainerRepo.Values)) ==>
                          Symmetric(traineeRepo.Values, trainerRepo.Values)))
              && (!old(HasNullBackLink(trainee)) && resolved.Ok? ==>
                    && (r.Ok? <==> |trainerUsernames| == 0 ||
                                   (old(trainee.trainers).Some? &&
                                    forall tr :: tr in Elements(resolved.value) ==> old(tr.trainees).Some?))
                    && (r.Err? ==>
                          && r.error == NullPointer
                          && var chosen := Elements(resolved.value);
                             && (trainee.trainers.None? <==> old(trainee.trainers).None?)
                             && RosterOf(trainee) <= chosen
                             && (forall tr :: tr in old(RosterOf(trainee)) && tr !in chosen ==>
                                   tr.trainees == Some(old(tr.trainees).value - {trainee}))
                             && (forall tr :: tr in chosen ==>
                                   && (tr.trainees.None? <==> old(tr.trainees).None?)
                                   && (tr.trainees.Some? ==>
                                         tr.trainees.value - {trainee} == old(tr.trainees).value - {trainee}))
                             && (forall tr :: tr in trainerRepo.Values && tr !in old(RosterOf(trainee)) && tr !in chosen ==>
                                   tr.trainees == old(tr.trainees))))
    // success
    ensures r.Ok? ==>
              && FindByUsername(traineeRepo, traineeUsername).Some?
              && ResolveTrainers(trainerRepo, trainerUsernames).Ok?
              && var trainee := FindByUsername(traineeRepo, traineeUsername).value;
                 var chosen := Elements(ResolveTrainers(trainerRepo, trainerUsernames).value);
                 && trainee.trainers == (if old(trainee.trainers).Some? then Some(chosen) else None)
                 && (forall tr :: tr in chosen ==> tr.trainees == Some(old(tr.trainees).value + {trainee}))
                 && (forall tr :: tr in old(RosterOf(trainee)) && tr !in chosen ==>
                       tr.trainees == Some(old(tr.trainees).value - {trainee}))
                 && (forall tr :: tr in trainerRepo.Values && tr !in old(RosterOf(trainee)) && tr !in chosen ==>
                       tr.trainees == old(tr.trainees))
                 && |r.value| == |trainerUsernames|
                 && forall i :: 0 <= i < |trainerUsernames| ==>
                      r.value[i] == ToDto(trainerRepo[trainerUsernames[i]])
    // the relation stays symmetric
    ensures r.Ok? && old(Symmetric(traineeRepo.Values, trainerRepo.Values)) &&
            old(Rosters(Found(traineeRepo, traineeUsername))) <= trainerRepo.Values ==>
              Symmetric(traineeRepo.Values, trainerRepo.Values)
  {
    if NullOrBlank(traineeUsername) {
      return Err(IllegalArgument("Trainee username must not be blank"));
    }
    var found := FindByUsername(traineeRepo, traineeUsername);
    if found.None? {
      return Err(Runtime("Trainee not found"));
    }
    var trainee := found.value;
    assert Found(traineeRepo, traineeUsername) == {trainee};
    assert RosterOf(trainee) == Rosters(Found(traineeRepo, traineeUsername));
    var replaced := ReplaceTrainers(trainee, trainerRepo, trainerUsernames, traineeRepo.Values);
    if replaced.Err? {
      return Err(replaced.error);
    }
    r := Ok(ToDtos(replaced.value));
  }
}
