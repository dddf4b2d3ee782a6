/** TrainingServiceImpl.create: validate the request, look up the trainee,
    the trainer and the training type, build the training and link the
    trainer and the trainee on both sides when they are not linked yet.

    The repositories are maps; the id the database assigns on save is the
    parameter `savedId`. */
module TrainingService {
  import opened Wrappers
  import opened JavaLang
  import opened Entities
  import opened Dto
  import TrainingMapper

  /** validate: the six required fields, checked in this order. */
  function Validate(dto: TrainingCreateDto): (r: Outcome<Exception>)
    ensures r.Pass? <==> && !NullOrBlank(dto.traineeUsername) && !NullOrBlank(dto.trainerUsername)
                         && dto.trainingTypeId.Some? && !NullOrBlank(dto.trainingName)
                         && dto.trainingDate.Some?
                         && dto.trainingDuration.Some? && dto.trainingDuration.value > 0
    ensures NullOrBlank(dto.traineeUsername) ==> r == Fail(IllegalArgument("Trainee username is required"))
    ensures !NullOrBlank(dto.traineeUsername) && NullOrBlank(dto.trainerUsername) ==>
              r == Fail(IllegalArgument("Trainer username is required"))
    ensures !NullOrBlank(dto.traineeUsername) && !NullOrBlank(dto.trainerUsername) && dto.trainingTypeId.None? ==>
              r == Fail(IllegalArgument("Training type is required"))
    ensures !NullOrBlank(dto.traineeUsername) && !NullOrBlank(dto.trainerUsername) && dto.trainingTypeId.Some?
            && NullOrBlank(dto.trainingName) ==>
              r == Fail(IllegalArgument("Training name is required"))
    ensures !NullOrBlank(dto.traineeUsername) && !NullOrBlank(dto.trainerUsername) && dto.trainingTypeId.Some?
            && !NullOrBlank(dto.trainingName) && dto.trainingDate.None? ==>
              r == Fail(IllegalArgument("Training date is required"))
    ensures !NullOrBlank(dto.traineeUsername) && !NullOrBlank(dto.trainerUsername) && dto.trainingTypeId.Some?
            && !NullOrBlank(dto.trainingName) && dto.trainingDate.Some?
            && (dto.trainingDuration.None? || dto.trainingDuration.value <= 0) ==>
              r == Fail(IllegalArgument("Training duration must be positive"))
  {
    if NullOrBlank(dto.traineeUsername) then Fail(IllegalArgument("Trainee username is required"))
    else if NullOrBlank(dto.trainerUsername) then Fail(IllegalArgument("Trainer username is required"))
    else if dto.trainingTypeId.None? then Fail(IllegalArgument("Training type is required"))
    else if NullOrBlank(dto.trainingName) then Fail(IllegalArgument("Training name is required"))
    else if dto.trainingDate.None? then Fail(IllegalArgument("Training date is required"))
    else if dto.trainingDuration.None? || dto.trainingDuration.value <= 0 then
      Fail(IllegalArgument("Training duration must be positive"))
    else Pass
  }

  /** A duration of zero is refused even when every other field is present. */
  lemma ZeroDurationIsRefused(dto: TrainingCreateDto)
    requires !NullOrBlank(dto.traineeUsername) && !NullOrBlank(dto.trainerUsername)
    requires dto.trainingTypeId.Some? && !NullOrBlank(dto.trainingName) && dto.trainingDate.Some?
    requires dto.trainingDuration == Some(0)
    ensures Validate(dto) == Fail(IllegalArgument("Training duration must be positive"))
  {
  }

  /** The `if (!trainer.getTrainees().contains(trainee))` block: add each
      to the other's set. The trainer's set is dereferenced first and is
      extended before the trainee's set is dereferenced. */
  method Link(trainee: Trainee, trainer: Trainer, ghost trainees: set<Trainee>, ghost trainers: set<Trainer>)
    returns (r: Outcome<Exception>)
    modifies trainee`trainers, trainer`trainees
    ensures old(trainer.trainees).None? ==> r == Fail(NullPointer) && unchanged(trainee, trainer)
    ensures old(trainer.trainees).Some? && trainee in old(trainer.trainees).value ==>
              r == Pass && unchanged(trainee, trainer)
    ensures old(trainer.trainees).Some? && trainee !in old(trainer.trainees).value ==>
              && trainer.trainees == Some(old(trainer.trainees).value + {trainee})
              && (old(trainee.trainers).None? ==> r == Fail(NullPointer) && unchanged(trainee))
              && (old(trainee.trainers).Some? ==>
                    r == Pass && trainee.trainers == Some(old(trainee.trainers).value + {trainer}))
    ensures r.Pass? ==> trainee in TraineesOf(trainer)
    ensures r.Pass? && trainee !in old(TraineesOf(trainer)) ==> trainer in RosterOf(trainee)
    ensures r.Pass? && old(Symmetric(trainees, trainers)) ==> Symmetric(trainees, trainers)
    ensures r.Pass? && old(Symmetric(trainees, trainers)) && trainee in trainees && trainer in trainers ==>
              trainer in RosterOf(trainee)
  {
    if trainer.trainees.None? {
      return Fail(NullPointer);
    }
    if trainee !in trainer.trainees.value {
      trainer.trainees := Some(trainer.trainees.value + {trainee});
      if trainee.trainers.None? {
        return Fail(NullPointer);
      }
      trainee.trainers := Some(trainee.trainers.value + {trainer});
    }
    r := Pass;
    if old(Symmetric(trainees, trainers)) {
      forall s, tr | s in trainees && tr in trainers
        ensures tr in RosterOf(s) <==> s in TraineesOf(tr)
      {
        assert old(tr in RosterOf(s) <==> s in TraineesOf(tr));
        if s != trainee {
          assert RosterOf(s) == old(RosterOf(s));
        }
        if tr != trainer {
          assert TraineesOf(tr) == old(TraineesOf(tr));
        }
      }
    }
  }

  /** The trainee, the trainer and the training type create looks up. */
  datatype Parties = Parties(trainee: Trainee, trainer: Trainer, trainingType: TrainingType)

  /** The validation and the three lookups of create, in their order. */
  function Resolve(traineeRepo: map<string, Trainee>, trainerRepo: map<string, Trainer>,
                   typeRepo: map<int, TrainingType>, dto: TrainingCreateDto): (r: Result<Parties, Exception>)
    ensures Validate(dto).Fail? ==> r == Err(Validate(dto).error)
    ensures Validate(dto).Pass? && FindByUsername(traineeRepo, dto.traineeUsername).None? ==>
              r == Err(Runtime("Trainee not found"))
    ensures Validate(dto).Pass? && FindByUsername(traineeRepo, dto.traineeUsername).Some?
            && FindByUsername(trainerRepo, dto.trainerUsername).None? ==>
              r == Err(Runtime("Trainer not found"))
    ensures Validate(dto).Pass? && FindByUsername(traineeRepo, dto.traineeUsername).Some?
            && FindByUsername(trainerRepo, dto.trainerUsername).Some?
            && dto.trainingTypeId.value !in typeRepo ==>
              r == Err(Runtime("Training type not found"))
    ensures r.Ok? ==>
              && Validate(dto).Pass?
              && FindByUsername(traineeRepo, dto.traineeUsername) == Some(r.value.trainee)
              && FindByUsername(trainerRepo, dto.trainerUsername) == Some(r.value.trainer)
              && dto.trainingTypeId.value in typeRepo
              && r.value.trainingType == typeRepo[dto.trainingTypeId.value]
  {
    var valid := Validate(dto);
    if valid.Fail? then Err(valid.error)
    else match FindByUsername(traineeRepo, dto.traineeUsername)
      case None => Err(Runtime("Trainee not found"))
      case Some(trainee) =>
        match FindByUsername(trainerRepo, dto.trainerUsername)
        case None => Err(Runtime("Trainer not found"))
        case Some(trainer) =>
          if dto.trainingTypeId.value !in typeRepo then Err(Runtime("Training type not found"))
          else Ok(Parties(trainee, trainer, typeRepo[dto.trainingTypeId.value]))
  }

  /** The new Training and its setters. */
  method NewTraining(parties: Parties, dto: TrainingCreateDto) returns (training: Training)
    ensures fresh(training)
    ensures training.id == None
    ensures training.trainee == parties.trainee && training.trainer == parties.trainer
    ensures training.trainingType == Some(parties.trainingType)
    ensures training.trainingName == dto.trainingName && training.trainingDate == dto.trainingDate
    ensures training.trainingDuration == dto.trainingDuration
  {
    training := new Training();
    training.trainee := parties.trainee;
    training.trainer := parties.trainer;
    training.trainingType := Some(parties.trainingType);
    training.trainingName := dto.trainingName;
    training.trainingDate := dto.trainingDate;
    training.trainingDuration := dto.trainingDuration;
  }

  /** create */
  method Create(traineeRepo: map<string, Trainee>, trainerRepo: map<string, Trainer>,
                typeRepo: map<int, TrainingType>, dto: TrainingCreateDto, savedId: int)
    returns (r: Result<TrainingResponseDto, Exception>, training: Training?)
    modifies Found(traineeRepo, dto.traineeUsername)`trainers, Found(trainerRepo, dto.trainerUsername)`trainees
    // failures before any change
    ensures Resolve(traineeRepo, trainerRepo, typeRepo, dto).Err? ==>
              && r == Err(Resolve(traineeRepo, trainerRepo, typeRepo, dto).error) && training == null
              && unchanged(Found(traineeRepo, dto.traineeUsername))
              && unchanged(Found(trainerRepo, dto.trainerUsername))
    // after the lookups
    ensures Resolve(traineeRepo, trainerRepo, typeRepo, dto).Ok? ==>
              var parties := Resolve(traineeRepo, trainerRepo, typeRepo, dto).value;
              var trainee, trainer := parties.trainee, parties.trainer;
              var linked := old(trainer.trainees).Some? && trainee in old(trainer.trainees).value;
              // the trainer's set is null
              && (old(trainer.trainees).None? ==>
                    r == Err(NullPointer) && training == null && unchanged(trainee, trainer))
              // the trainer's side is added before the trainee's null set is reached
              && (old(trainer.trainees).Some? && !linked && old(trainee.trainers).None? ==>
                    && r == Err(NullPointer) && training == null
                    && trainer.trainees == Some(old(trainer.trainees).value + {trainee})
                    && unchanged(trainee))
              // success
              && (r.Ok? <==> old(trainer.trainees).Some? && (linked || old(trainee.trainers).Some?))
              && (r.Ok? ==>
                    && training != null && fresh(training)
                    && training.id == Some(savedId)
                    && training.trainee == trainee && training.trainer == trainer
                    && training.trainingType == Some(parties.trainingType)
                    && training.trainingName == dto.trainingName
                    && training.trainingDate == dto.trainingDate
                    && training.trainingDuration == dto.trainingDuration
                    && TrainingMapper.Linked(training)
                    && r.value == TrainingMapper.ToDto(training)
                    && trainee in TraineesOf(trainer)
                    && (!linked || old(Symmetric(traineeRepo.Values, trainerRepo.Values)) ==>
                          trainer in RosterOf(trainee))
                    && (linked ==> unchanged(trainee, trainer))
                    && (!linked ==>
                          && trainer.trainees == Some(old(trainer.trainees).value + {trainee})
                          && trainee.trainers == Some(old(trainee.trainers).value + {trainer})))
    // the response names the requested trainee and trainer
    ensures r.Ok? && TraineesKeyedByUsername(traineeRepo) && TrainersKeyedByUsername(trainerRepo) ==>
              && r.value.traineeUsername == dto.traineeUsername
              && r.value.trainerUsername == dto.trainerUsername
              && r.value.trainingTypeName == typeRepo[dto.trainingTypeId.value].trainingTypeName
              && r.value.trainingName == dto.trainingName && r.value.trainingDate == dto.trainingDate
              && r.value.trainingDuration == dto.trainingDuration && r.value.id == Some(savedId)
    // the relation stays symmetric
    ensures r.Ok? && old(Symmetric(traineeRepo.Values, trainerRepo.Values)) ==>
              Symmetric(traineeRepo.Values, trainerRepo.Values)
  {
    var resolved := Resolve(traineeRepo, trainerRepo, typeRepo, dto);
    if resolved.Err? {
      return Err(resolved.error), null;
    }
    var parties := resolved.value;
    var t := NewTraining(parties, dto);
    var linked := Link(parties.trainee, parties.trainer, traineeRepo.Values, trainerRepo.Values);
    if linked.Fail? {
      return Err(linked.error), null;
    }
    // trainingRepository.save assigns the generated id
    t.id := Some(savedId);
    training := t;
    r := Ok(TrainingMapper.ToDto(t));
  }
}
