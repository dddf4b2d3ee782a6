/** TrainingMapper: the response DTO of a Training, read through its links. */
module TrainingMapper {
  import opened Wrappers
  import opened JavaLang
  import opened Entities
  import opened Dto

  /** The links toDto dereferences; a null one throws NullPointerException. */
  predicate Linked(training: Training)
    reads training
  {
    training.trainee != null && training.trainer != null && training.trainingType.Some?
  }

  /** TrainingMapper.toDto */
  function ToDto(training: Training): (dto: TrainingResponseDto)
    requires Linked(training)
    reads training, training.trainee, training.trainer
    ensures dto.id == training.id
    ensures dto.trainingName == training.trainingName
    ensures dto.trainingDate == training.trainingDate
    ensures dto.trainingDuration == training.trainingDuration
    ensures dto.traineeUsername == training.trainee.user.username
    ensures dto.trainerUsername == training.trainer.user.username
    ensures dto.trainingTypeName == training.trainingType.value.trainingTypeName
  {
    TrainingResponseDto(
      training.id,
      training.trainee.user.username,
      training.trainer.user.username,
      training.trainingType.value.trainingTypeName,
      training.trainingName,
      training.trainingDate,
      training.trainingDuration)
  }
}
