/** The data transfer objects the services and mappers exchange. Fields a
    caller may leave unset are nullable (Option). */
module Dto {
  import opened Wrappers
  import opened JavaLang
  import opened Entities

  datatype TraineeCreateDto = TraineeCreateDto(
    firstName: JString,
    lastName: JString,
    dateOfBirth: Option<Date>,
    address: JString)

  /** `active` is carried but never read by the update. */
  datatype TraineeUpdateDto = TraineeUpdateDto(
    firstName: JString,
    lastName: JString,
    dateOfBirth: Option<Date>,
    address: JString,
    active: bool)

  datatype TraineeResponseDto = TraineeResponseDto(
    username: JString,
    firstName: JString,
    lastName: JString,
    active: bool,
    dateOfBirth: Option<Date>,
    address: JString,
    trainerUsernames: Option<set<JString>>)

  datatype TrainerCreateDto = TrainerCreateDto(
    firstName: JString,
    lastName: JString,
    specialization: JString)

  datatype TrainerUpdateDto = TrainerUpdateDto(
    firstName: JString,
    lastName: JString,
    specialization: JString)

  datatype TrainerResponseDto = TrainerResponseDto(
    username: JString,
    firstName: JString,
    lastName: JString,
    active: bool,
    specialization: JString,
    traineeUsernames: Option<set<JString>>)

  datatype TrainingCreateDto = TrainingCreateDto(
    traineeUsername: JString,
    trainerUsername: JString,
    trainingTypeId: Option<int>,
    trainingName: JString,
    trainingDate: Option<Date>,
    trainingDuration: Option<int>)

  datatype TrainingResponseDto = TrainingResponseDto(
    id: Option<int>,
    traineeUsername: JString,
    trainerUsername: JString,
    trainingTypeName: JString,
    trainingName: JString,
    trainingDate: Option<Date>,
    trainingDuration: Option<int>)

  datatype TrainerTrainingFilterDto = TrainerTrainingFilterDto(
    fromDate: Option<Date>,
    toDate: Option<Date>,
    traineeName: JString)
}
