/** TraineeServiceImpl: creation, validation, credential checks, the
    activation flag, password change and the partial update.

    The repository is a map from username to trainee; findByUsername is
    Entities.FindByUsername. LocalDate.now() is the parameter `today`, the
    usernames findUsernamesStartingWith returns are a parameter, and the
    random draws of the password generator are a parameter. */
module TraineeService {
  import opened Wrappers
  import opened JavaLang
  import opened Entities
  import opened Dto
  import opened TraineeMapper
  import UsernameGenerator
  import PasswordGenerator

  // ---------------------------------------------------------------------
  // Validation

  /** validate: first name, last name, date of birth present and not in the
      future, address, checked in that order. */
  function Validate(dto: TraineeCreateDto, today: Date): (r: Outcome<Exception>)
    ensures r.Pass? <==> && !NullOrBlank(dto.firstName) && !NullOrBlank(dto.lastName)
                         && dto.dateOfBirth.Some? && !IsAfter(dto.dateOfBirth.value, today)
                         && !NullOrBlank(dto.address)
    ensures NullOrBlank(dto.firstName) ==> r == Fail(IllegalArgument("First name cannot be empty"))
    ensures !NullOrBlank(dto.firstName) && NullOrBlank(dto.lastName) ==>
              r == Fail(IllegalArgument("Last name cannot be empty"))
    ensures !NullOrBlank(dto.firstName) && !NullOrBlank(dto.lastName) && dto.dateOfBirth.None? ==>
              r == Fail(IllegalArgument("Date of birth cannot be null"))
    ensures !NullOrBlank(dto.firstName) && !NullOrBlank(dto.lastName) && dto.dateOfBirth.Some?
            && IsAfter(dto.dateOfBirth.value, today) ==>
              r == Fail(IllegalArgument("Date of birth must be in the past"))
    ensures !NullOrBlank(dto.firstName) && !NullOrBlank(dto.lastName) && dto.dateOfBirth.Some?
            && !IsAfter(dto.dateOfBirth.value, today) && NullOrBlank(dto.address) ==>
              r == Fail(IllegalArgument("Address cannot be empty"))
  {
    if NullOrBlank(dto.firstName) then Fail(IllegalArgument("First name cannot be empty"))
    else if NullOrBlank(dto.lastName) then Fail(IllegalArgument("Last name cannot be empty"))
    else if dto.dateOfBirth.None? then Fail(IllegalArgument("Date of birth cannot be null"))
    else if IsAfter(dto.dateOfBirth.value, today) then Fail(IllegalArgument("Date of birth must be in the past"))
    else if NullOrBlank(dto.address) then Fail(IllegalArgument("Address cannot be empty"))
    else Pass
  }

  /** validateUpdate: null fields are skipped; a present field must not be
      blank, and a date of birth not in the future. */
  function ValidateUpdate(dto: TraineeUpdateDto, today: Date): (r: Outcome<Exception>)
    ensures r.Pass? <==> && !PresentButBlank(dto.firstName) && !PresentButBlank(dto.lastName)
                         && !(dto.dateOfBirth.Some? && IsAfter(dto.dateOfBirth.value, today))
                         && !PresentButBlank(dto.address)
    ensures PresentButBlank(dto.firstName) ==> r == Fail(IllegalArgument("First name cannot be blank"))
    ensures !PresentButBlank(dto.firstName) && PresentButBlank(dto.lastName) ==>
              r == Fail(IllegalArgument("Last name cannot be blank"))
    ensures !PresentButBlank(dto.firstName) && !PresentButBlank(dto.lastName)
            && dto.dateOfBirth.Some? && IsAfter(dto.dateOfBirth.value, today) ==>
              r == Fail(IllegalArgument("Date of birth must be in the past"))
    ensures !PresentButBlank(dto.firstName) && !PresentButBlank(dto.lastName)
            && !(dto.dateOfBirth.Some? && IsAfter(dto.dateOfBirth.value, today))
            && PresentButBlank(dto.address) ==>
              r == Fail(IllegalArgument("Address cannot be blank"))
  {
    if PresentButBlank(dto.firstName) then Fail(IllegalArgument("First name cannot be blank"))
    else if PresentButBlank(dto.lastName) then Fail(IllegalArgument("Last name cannot be blank"))
    else if dto.dateOfBirth.Some? && IsAfter(dto.dateOfBirth.value, today) then
      Fail(IllegalArgument("Date of birth must be in the past"))
    else if PresentButBlank(dto.address) then Fail(IllegalArgument("Address cannot be blank"))
    else Pass
  }

  /** isAfter is strict: a trainee born today passes the date check. */
  lemma BornTodayIsAccepted(firstName: string, lastName: string, address: string, today: Date)
    requires !IsBlank(firstName) && !IsBlank(lastName) && !IsBlank(address)
    ensures Validate(TraineeCreateDto(Some(firstName), Some(lastName), Some(today), Some(address)), today) == Pass
  {
  }

  /** A date of birth after today is refused, by create and update alike,
      whatever the address. */
  lemma BornAfterTodayIsRefused(dto: TraineeCreateDto, today: Date)
    requires !NullOrBlank(dto.firstName) && !NullOrBlank(dto.lastName)
    requires dto.dateOfBirth.Some? && IsAfter(dto.dateOfBirth.value, today)
    ensures Validate(dto, today) == Fail(IllegalArgument("Date of birth must be in the past"))
    ensures ValidateUpdate(TraineeUpdateDto(dto.firstName, dto.lastName, dto.dateOfBirth, dto.address, true), today)
            == Fail(IllegalArgument("Date of birth must be in the past"))
  {
  }

  /** Whatever passes creation passes as an update with the same fields. */
  lemma CreateValidIsUpdateValid(dto: TraineeCreateDto, today: Date, active: bool)
    requires Validate(dto, today).Pass?
    ensures ValidateUpdate(TraineeUpdateDto(dto.firstName, dto.lastName, dto.dateOfBirth, dto.address, active),
                           today).Pass?
  {
  }

  /** An update that sets nothing is valid. */
  lemma EmptyUpdateIsValid(today: Date, active: bool)
    ensures ValidateUpdate(TraineeUpdateDto(None, None, None, None, active), today) == Pass
  {
  }

  /** A validated update keeps a profile that would pass creation valid. */
  lemma ValidUpdateKeepsProfileValid(p: TraineeProfile, dto: TraineeUpdateDto, today: Date)
    requires ValidateUpdate(dto, today).Pass?
    requires Validate(TraineeCreateDto(p.user.firstName, p.user.lastName, p.dateOfBirth, p.address), today).Pass?
    ensures var q := Patched(p, dto);
            Validate(TraineeCreateDto(q.user.firstName, q.user.lastName, q.dateOfBirth, q.address), today).Pass?
  {
  }

  // ---------------------------------------------------------------------
  // Creation

  /** create: the trainee gets the generated username for base
      first.last, a generated password and active = true. */
  method Create(dto: TraineeCreateDto, today: Date, existingUsernames: seq<string>, draws: seq<int>)
    returns (r: Result<TraineeResponseDto, Exception>, trainee: Trainee?)
    requires PasswordGenerator.ValidDraws(draws)
    ensures Validate(dto, today).Fail? ==> r == Err(Validate(dto, today).error) && trainee == null
    ensures Validate(dto, today).Pass? ==>
              && trainee != null && fresh(trainee)
              && trainee.user.username == Some(UsernameGenerator.Generate(dto.firstName.value, dto.lastName.value,
                                                                          existingUsernames))
              && trainee.user.firstName == dto.firstName && trainee.user.lastName == dto.lastName
              && trainee.user.isActive && trainee.user.id == None
              && trainee.dateOfBirth == dto.dateOfBirth && trainee.address == dto.address
              && trainee.trainers == None
              && trainee.user.password.Some?
              && |trainee.user.password.value| == PasswordGenerator.PASSWORD_LENGTH
              && (forall i :: 0 <= i < PasswordGenerator.PASSWORD_LENGTH ==>
                    trainee.user.password.value[i] == PasswordGenerator.CHARS[draws[i]])
              && !IsBlank(trainee.user.password.value)
              && r == Ok(ToDto(trainee))
    ensures Validate(dto, today).Pass? ==>
              var store := map[trainee.user.username.value := trainee];
              ValidateCredentials(store, trainee.user.username, trainee.user.password) == r
  {
    var valid := Validate(dto, today);
    if valid.Fail? {
      return Err(valid.error), null;
    }
    var generatedUsername := UsernameGenerator.Generate(dto.firstName.value, dto.lastName.value, existingUsernames);
    trainee := ToEntity(dto);
    trainee.user := trainee.user.(username := Some(generatedUsername));
    var password := PasswordGenerator.Generate(draws);
    PasswordGenerator.GeneratedPasswordIsNotBlank(draws, password);
    trainee.user := trainee.user.(password := Some(password));
    r := Ok(ToDto(trainee));
  }

  // ---------------------------------------------------------------------
  // Credentials and account state

  /** The objects the response DTOs of a store's trainees are read from. */
  function LinkedTrainers(trainees: set<Trainee>): set<Trainer>
    reads trainees
  {
    set t, tr | t in trainees && tr in RosterOf(t) :: tr
  }

  /** validateCredentials: not found, then deactivated, then a password
      mismatch; the stored password is dereferenced, so a null one throws. */
  function ValidateCredentials(repo: map<string, Trainee>, username: JString, password: JString)
    : (r: Result<TraineeResponseDto, Exception>)
    reads repo.Values, LinkedTrainers(repo.Values)
    ensures FindByUsername(repo, username).None? ==> r == Err(Runtime("Trainee not found"))
    ensures FindByUsername(repo, username).Some? ==>
              var trainee := FindByUsername(repo, username).value;
              && (!trainee.user.isActive ==> r == Err(Runtime("Trainee is deactivated")))
              && (trainee.user.isActive && trainee.user.password.None? ==> r == Err(NullPointer))
              && (trainee.user.isActive && trainee.user.password.Some? && trainee.user.password != password ==>
                    r == Err(Runtime("Invalid password")))
    ensures r.Ok? <==> FindByUsername(repo, username).Some?
                       && FindByUsername(repo, username).value.user.isActive
                       && FindByUsername(repo, username).value.user.password.Some?
                       && FindByUsername(repo, username).value.user.password == password
    ensures r.Ok? ==> r.value == ToDto(FindByUsername(repo, username).value)
  {
    match FindByUsername(repo, username)
    case None => Err(Runtime("Trainee not found"))
    case Some(trainee) =>
      assert RosterOf(trainee) <= LinkedTrainers(repo.Values);
      if !trainee.user.isActive then Err(Runtime("Trainee is deactivated"))
      else if trainee.user.password.None? then Err(NullPointer)
      else if trainee.user.password != password then Err(Runtime("Invalid password"))
      else Ok(ToDto(trainee))
  }

  /** An inactive trainee is refused even with the right password. */
  lemma DeactivatedRefusedWithRightPassword(repo: map<string, Trainee>, username: string)
    requires username in repo && !repo[username].user.isActive
    ensures ValidateCredentials(repo, Some(username), repo[username].user.password)
            == Err(Runtime("Trainee is deactivated"))
  {
  }

  /** activate */
  method Activate(repo: map<string, Trainee>, username: JString) returns (r: Result<TraineeResponseDto, Exception>)
    modifies Found(repo, username)`user
    ensures FindByUsername(repo, username).None? ==> r == Err(Runtime("Trainee not found"))
    ensures FindByUsername(repo, username).Some? ==>
              var trainee := FindByUsername(repo, username).value;
              && trainee.user == old(trainee.user).(isActive := true)
              && r == Ok(ToDto(trainee))
              && (trainee.user.password.Some? ==>
                    ValidateCredentials(repo, username, trainee.user.password) == r)
  {
    var found := FindByUsername(repo, username);
    if found.None? {
      return Err(Runtime("Trainee not found"));
    }
    var trainee := found.value;
    trainee.user := trainee.user.(isActive := true);
    r := Ok(ToDto(trainee));
  }

  /** deactivate */
  method Deactivate(repo: map<string, Trainee>, username: JString) returns (r: Result<TraineeResponseDto, Exception>)
    modifies Found(repo, username)`user
    ensures FindByUsername(repo, username).None? ==> r == Err(Runtime("Trainee not found"))
    ensures FindByUsername(repo, username).Some? ==>
              var trainee := FindByUsername(repo, username).value;
              && trainee.user == old(trainee.user).(isActive := false)
              && r == Ok(ToDto(trainee))
              && forall password :: ValidateCredentials(repo, username, password)
                                      == Err(Runtime("Trainee is deactivated"))
  {
    var found := FindByUsername(repo, username);
    if found.None? {
      return Err(Runtime("Trainee not found"));
    }
    var trainee := found.value;
    trainee.user := trainee.user.(isActive := false);
    r := Ok(ToDto(trainee));
  }

  /** changePassword: the blank guard, then the repository's
      changePassword, which fails for an unknown username. */
  method ChangePassword(repo: map<string, Trainee>, username: JString, newPassword: JString)
    returns (r: Outcome<Exception>)
    modifies Found(repo, username)`user
    ensures NullOrBlank(newPassword) ==>
              r == Fail(IllegalArgument("Password cannot be blank")) && unchanged(Found(repo, username))
    ensures !NullOrBlank(newPassword) && FindByUsername(repo, username).None? ==>
              r == Fail(IllegalArgument("Trainee not found with username " + StringValueOf(username)))
    ensures !NullOrBlank(newPassword) && FindByUsername(repo, username).Some? ==>
              var trainee := FindByUsername(repo, username).value;
              && r == Pass
              && trainee.user == old(trainee.user).(password := newPassword)
              && (trainee.user.isActive ==> ValidateCredentials(repo, username, newPassword).Ok?)
  {
    if NullOrBlank(newPassword) {
      return Fail(IllegalArgument("Password cannot be blank"));
    }
    var found := FindByUsername(repo, username);
    if found.None? {
      return Fail(IllegalArgument("Trainee not found with username " + StringValueOf(username)));
    }
    var trainee := found.value;
    trainee.user := trainee.user.(password := newPassword);
    r := Pass;
  }

  /** update: validation before the lookup, then the partial update. */
  method Update(repo: map<string, Trainee>, username: JString, dto: TraineeUpdateDto, today: Date)
    returns (r: Result<TraineeResponseDto, Exception>)
    modifies Found(repo, username)`user, Found(repo, username)`dateOfBirth, Found(repo, username)`address
    ensures ValidateUpdate(dto, today).Fail? ==>
              r == Err(ValidateUpdate(dto, today).error) && unchanged(Found(repo, username))
    ensures ValidateUpdate(dto, today).Pass? && FindByUsername(repo, username).None? ==>
              r == Err(Runtime("Trainee not found"))
    ensures ValidateUpdate(dto, today).Pass? && FindByUsername(repo, username).Some? ==>
              var trainee := FindByUsername(repo, username).value;
              && Profile(trainee) == Patched(old(Profile(trainee)), dto)
              && r == Ok(ToDto(trainee))
  {
    var valid := ValidateUpdate(dto, today);
    if valid.Fail? {
      return Err(valid.error);
    }
    var found := FindByUsername(repo, username);
    if found.None? {
      return Err(Runtime("Trainee not found"));
    }
    var trainee := found.value;
    UpdateEntity(trainee, dto);
    r := Ok(ToDto(trainee));
  }
}
