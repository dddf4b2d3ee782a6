/** The persistent entities. User's fields are shared by Trainee and
    Trainer by composition: each holds a User value that its setters
    replace. Trainee and Trainer are objects whose fields the services
    update in place, and the roster is a pair of mirrored sets, one on each
    side; equality of entities in those sets is object identity, as in the
    source, where no entity overrides equals. TrainingType is never changed
    by the core, so it is a value. */
module Entities {
  import opened Wrappers
  import opened JavaLang

  /** java.time.LocalDate. */
  datatype Date = Date(year: int, month: int, day: int)

  /** LocalDate.isAfter: strictly later. */
  predicate IsAfter(a: Date, b: Date) {
    || a.year > b.year
    || (a.year == b.year && a.month > b.month)
    || (a.year == b.year && a.month == b.month && a.day > b.day)
  }

  /** The fields of the abstract User entity. */
  datatype User = User(
    id: Option<int>,
    firstName: JString,
    lastName: JString,
    username: JString,
    password: JString,
    isActive: bool)

  /** The fields of a freshly constructed entity: every reference null,
      isActive false. */
  const NewUser: User := User(None, None, None, None, None, false)

  class Trainee {
    var user: User
    var dateOfBirth: Option<Date>
    var address: JString
    /** The trainers this trainee is linked to; None is a null set. */
    var trainers: Option<set<Trainer>>

    /** new Trainee() */
    constructor ()
      ensures user == NewUser && dateOfBirth == None && address == None && trainers == None
    {
      user := NewUser;
      dateOfBirth := None;
      address := None;
      trainers := None;
    }
  }

  class Trainer {
    var user: User
    var specialization: JString
    /** The trainees this trainer is linked to; None is a null set. */
    var trainees: Option<set<Trainee>>

    /** new Trainer() */
    constructor ()
      ensures user == NewUser && specialization == None && trainees == None
    {
      user := NewUser;
      specialization := None;
      trainees := None;
    }
  }

  datatype TrainingType = TrainingType(id: Option<int>, trainingTypeName: JString)

  class Training {
    var id: Option<int>
    var trainee: Trainee?
    var trainer: Trainer?
    var trainingType: Option<TrainingType>
    var trainingName: JString
    var trainingDate: Option<Date>
    var trainingDuration: Option<int>

    /** new Training() */
    constructor ()
      ensures id == None && trainee == null && trainer == null && trainingType == None
      ensures trainingName == None && trainingDate == None && trainingDuration == None
    {
      id := None;
      trainee := null;
      trainer := null;
      trainingType := None;
      trainingName := None;
      trainingDate := None;
      trainingDuration := None;
    }
  }

  /** The trainers a trainee lists (a null set lists none). */
  function RosterOf(trainee: Trainee): set<Trainer>
    reads trainee
  {
    if trainee.trainers.Some? then trainee.trainers.value else {}
  }

  /** The trainees a trainer lists (a null set lists none). */
  function TraineesOf(trainer: Trainer): set<Trainee>
    reads trainer
  {
    if trainer.trainees.Some? then trainer.trainees.value else {}
  }

  /** The members of a list, as a set. */
  function Elements<T>(s: seq<T>): set<T> {
    set x | x in s
  }

  /** Some trainer on the trainee's roster has a null trainee set: clearing
      the roster would dereference it. */
  predicate HasNullBackLink(trainee: Trainee)
    reads trainee, RosterOf(trainee)
  {
    exists tr :: tr in RosterOf(trainee) && tr.trainees.None?
  }

  /** The roster invariant: between the given trainees and trainers, each
      link is recorded on both sides or on neither. */
  ghost predicate Symmetric(trainees: set<Trainee>, trainers: set<Trainer>)
    reads trainees, trainers
  {
    forall t, tr :: t in trainees && tr in trainers ==> (tr in RosterOf(t) <==> t in TraineesOf(tr))
  }

  /** A repository's findByUsername over a store keyed by username. A null
      username matches no row. */
  function FindByUsername<T>(store: map<string, T>, username: JString): (r: Option<T>)
    ensures r.Some? <==> username.Some? && username.value in store
    ensures r.Some? ==> r.value == store[username.value]
  {
    if username.Some? && username.value in store then Some(store[username.value]) else None
  }

  /** Every stored trainee is stored under its own username. */
  predicate TraineesKeyedByUsername(store: map<string, Trainee>)
    reads store.Values
  {
    forall k :: k in store ==> store[k].user.username == Some(k)
  }

  /** Every stored trainer is stored under its own username. */
  predicate TrainersKeyedByUsername(store: map<string, Trainer>)
    reads store.Values
  {
    forall k :: k in store ==> store[k].user.username == Some(k)
  }

  /** The entities findByUsername would return, as a frame. */
  function Found<T>(store: map<string, T>, username: JString): set<T>
    ensures FindByUsername(store, username).Some? ==> Found(store, username) == {FindByUsername(store, username).value}
    ensures FindByUsername(store, username).None? ==> Found(store, username) == {}
  {
    if username.Some? && username.value in store then {store[username.value]} else {}
  }
}
