# Gym project: a verified model of the service core

This project models the self-contained logic of a Spring/JPA gym
management application: trainees, trainers, trainings and training types.
It proves properties of that model in Dafny.

The model covers:

- username generation: `first.last`, then the largest numeric suffix among the taken names plus one, in Java `int` arithmetic;
- password generation: ten characters from a 62-character alphabet;
- the ordered validation chains of the three services, each failure carrying its fixed message;
- credential checks, activation, deactivation and password change;
- the entity/DTO mappers and their null-means-unchanged partial updates;
- the many-to-many trainer/trainee roster, which `updateTraineeTrainers` and training creation update in place on both sides;
- the JPQL text and parameters of the trainer's training search, and the username LIKE pattern;
- `Role.asAuthority`.

Representation choices:

- A Java `null` reference is `None` (`JString = Option<string>`, and the roster sets are `Option<set<..>>`).
- A thrown exception is an `Err`/`Fail` value: `IllegalArgument(msg)`, `Runtime(msg)` or `NullPointer`.
- `Trainee`, `Trainer` and `Training` are classes whose fields the methods change under `modifies` frames. `User` and `TrainingType` are values.
- A repository is a map from username to entity, so `findByUsername` is `Entities.FindByUsername`.
- Inputs the code obtains from outside become parameters:
  - `LocalDate.now()` becomes `today`;
  - the `SecureRandom` draws become `draws`;
  - the usernames `findUsernamesStartingWith` returns become `existingUsernames`;
  - the id `save` assigns becomes `savedId`.

Files, one module each:

- `wrappers.dfy`: Option, Result, Outcome.
- `java_lang.dfy`: null strings, `isBlank`, `startsWith`, exceptions, 32-bit wrap-around, `Integer.parseInt`/`toString`.
- `entities.dfy`, `dto.dfy`: the data model.
- `role.dfy`, `username_generator.dfy`, `password_generator.dfy`: the utilities.
- `trainee_mapper.dfy`, `trainer_mapper.dfy`, `training_mapper.dfy`: the mappers.
- `trainee_service.dfy`, `trainer_service.dfy`, `training_service.dfy`: the service implementations.
- `trainer_repository.dfy`: the query builder.

## Model

| member | source | states |
|---|---|---|
| Entities.FindByUsername | src/main/java/com/gym_project/repository/impl/TraineeRepositoryImpl.java:64-71 | the lookup finds an entity exactly when the username is non-null and stored, and then returns the stored entity |
| Entities.Found | src/main/java/com/gym_project/repository/impl/TraineeRepositoryImpl.java:64-71 | the entities a lookup returns, as a frame: the found entity alone, or nothing |
| Entities.Trainee.constructor | src/main/java/com/gym_project/entity/Trainee.java:14-26 | a new trainee has every reference null and is inactive |
| Entities.Trainer.constructor | src/main/java/com/gym_project/entity/Trainer.java:17-34 | a new trainer has every reference null and is inactive |
| Entities.Training.constructor | src/main/java/com/gym_project/entity/Training.java:17-43 | a new training has every field null |
| JavaLang.Wrap32 | src/main/java/com/gym_project/utils/UsernameGenerator.java:30 | `int` addition wraps: the result is a 32-bit value congruent to the exact sum modulo 2^32, and equal to it when the sum fits |
| JavaLang.ParseInt | src/main/java/com/gym_project/utils/UsernameGenerator.java:19 | a successful `Integer.parseInt` yields a 32-bit value from a non-empty text |
| JavaLang.ParseIntSucceedsOnDecimal | src/main/java/com/gym_project/utils/UsernameGenerator.java:19 | `parseInt` succeeds exactly when the text is an optional sign followed by at least one digit and its value fits in an `int`, and then yields that value; so an empty text, a lone sign, a non-digit or an out-of-range value fails |
| JavaLang.ParseIntRejectsOverflow | src/main/java/com/gym_project/utils/UsernameGenerator.java:19 | the numeral of any number above `Integer.MAX_VALUE` does not parse |
| JavaLang.IntToString | src/main/java/com/gym_project/utils/UsernameGenerator.java:31 | decimal text of an `int` is never empty |
| JavaLang.NatToString | src/main/java/com/gym_project/utils/UsernameGenerator.java:31 | decimal digits with no leading zero |
| JavaLang.ParseIntToString | src/main/java/com/gym_project/utils/UsernameGenerator.java:19 | `parseInt` inverts `toString` on every `int` |
| Role.ValueOf | src/main/java/com/gym_project/security/Role.java:3-6 | a name maps back only to the role with that name |
| Role.AsAuthority | src/main/java/com/gym_project/security/Role.java:8-10 | the authority starts with "ROLE_", and stripping that prefix gives back the role |
| Role.AsAuthorityInjective | src/main/java/com/gym_project/security/Role.java:8-10 | distinct roles have distinct authorities |
| Role.AuthorityValues | src/main/java/com/gym_project/security/Role.java:5-9 | TRAINER maps to "ROLE_TRAINER" and TRAINEE to "ROLE_TRAINEE" |
| UsernameGenerator.Base | src/main/java/com/gym_project/utils/UsernameGenerator.java:11 | the base is first name, dot, last name |
| UsernameGenerator.SuffixIndex | src/main/java/com/gym_project/utils/UsernameGenerator.java:15-23 | a matching name contributes a 32-bit index; the bare base contributes 0 |
| UsernameGenerator.MaxIndex | src/main/java/com/gym_project/utils/UsernameGenerator.java:13-25 | there is no maximum iff no taken name starts with the base; otherwise it bounds every matching index and is attained by one of them |
| UsernameGenerator.Generate | src/main/java/com/gym_project/utils/UsernameGenerator.java:10-33 | the result always starts with the base, and is the base itself when nothing matches |
| UsernameGenerator.MaxIndexDependsOnlyOnMembership | src/main/java/com/gym_project/utils/UsernameGenerator.java:13-25 | two lists with the same members have the same maximum index |
| UsernameGenerator.GenerateDependsOnlyOnMaxIndex | src/main/java/com/gym_project/utils/UsernameGenerator.java:27-32 | the result is determined by the base and the largest index alone |
| UsernameGenerator.GenerateDependsOnlyOnMembership | src/main/java/com/gym_project/utils/UsernameGenerator.java:10 | the result depends on the taken names only through their set, so passing a list for the declared Set is sound |
| UsernameGenerator.NameAboveAllIndicesIsFresh | src/main/java/com/gym_project/utils/UsernameGenerator.java:13-31 | a name whose index exceeds every taken index is not taken |
| UsernameGenerator.GenerateIsFresh | src/main/java/com/gym_project/utils/UsernameGenerator.java:13-31 | the result is not among the taken names whenever the largest index is below Integer.MAX_VALUE |
| UsernameGenerator.OverflowBreaksFreshness | src/main/java/com/gym_project/utils/UsernameGenerator.java:30-31 | at index Integer.MAX_VALUE the next index wraps to Integer.MIN_VALUE, and the result can then already be taken |
| UsernameGenerator.GenerateWhenNothingTaken | src/test/java/com/gym_project/utils/UsernameGeneratorTest.java:12-18 | with nothing taken the result is `first + "." + last` |
| UsernameGenerator.GenerateWhenBaseTaken | src/test/java/com/gym_project/utils/UsernameGeneratorTest.java:22-28 | the bare base taken gives base + "1" |
| UsernameGenerator.GenerateIncrementsIndex | src/test/java/com/gym_project/utils/UsernameGeneratorTest.java:32-38 | base1 taken gives base2 |
| UsernameGenerator.GenerateTakesMaxPlusOne | src/test/java/com/gym_project/utils/UsernameGeneratorTest.java:42-48 | {base, base1, base5} gives base6: the largest index plus one, not the count |
| UsernameGenerator.GenerateIgnoresNonNumericSuffix | src/test/java/com/gym_project/utils/UsernameGeneratorTest.java:52-58 | {baseX, base2} gives base3: a non-numeric suffix counts as 0 without failing |
| UsernameGenerator.GenerateMinusOneSuffixYieldsBase | src/main/java/com/gym_project/utils/UsernameGenerator.java:25-28 | a lone base + "-1" gives the bare base, since -1 also stands for "no match" |
| UsernameGenerator.GenerateIgnoresOtherNames | src/test/java/com/gym_project/utils/UsernameGeneratorTest.java:62-68 | names that share only a prefix with "john.doe" are ignored |
| UsernameGenerator.LargeIndexText | src/test/java/com/gym_project/utils/UsernameGeneratorTest.java:72-78 | the decimal texts of 9999999 and 10000000 |
| UsernameGenerator.GenerateLargeIndex | src/test/java/com/gym_project/utils/UsernameGeneratorTest.java:72-78 | base9999999 gives base10000000 |
| PasswordGenerator.Generate | src/main/java/com/gym_project/utils/PasswordGenerator.java:15-21 | the loop fills all 10 positions, position i holding CHARS[draw i] |
| PasswordGenerator.BlocksAreAlphanumeric | src/main/java/com/gym_project/utils/PasswordGenerator.java:10-11 | the three blocks of the alphabet are upper-case letters, lower-case letters and digits |
| PasswordGenerator.AlphabetIsAlphanumeric | src/main/java/com/gym_project/utils/PasswordGenerator.java:10-11 | the alphabet has 62 characters, all ASCII letters or digits |
| PasswordGenerator.GeneratedPasswordIsNotBlank | src/main/java/com/gym_project/utils/PasswordGenerator.java:16-20 | a generated password is alphanumeric and therefore not blank |
| TraineeMapper.TrainerUsernames | src/main/java/com/gym_project/mapper/TraineeMapper.java:36-43 | the collected usernames are exactly the trainers' usernames, and there are no more of them than trainers |
| TraineeMapper.CollectedSetIsNoLarger | src/main/java/com/gym_project/mapper/TraineeMapper.java:38-41 | collecting into a set never gains elements |
| TraineeMapper.ToEntity | src/main/java/com/gym_project/mapper/TraineeMapper.java:14-24 | a fresh trainee with names, date of birth and address copied, active, and everything else null |
| TraineeMapper.ToDto | src/main/java/com/gym_project/mapper/TraineeMapper.java:26-46 | username, names, active flag, date of birth and address copied; trainer usernames present iff the set is non-null, and then exactly the trainers' usernames |
| TraineeMapper.Patched | src/main/java/com/gym_project/mapper/TraineeMapper.java:48-63 | each field takes the DTO's value when non-null and keeps its own otherwise; id, username, password and active flag never change |
| TraineeMapper.UpdateEntity | src/main/java/com/gym_project/mapper/TraineeMapper.java:48-63 | the entity's profile after the update is the patched profile, and no other field changes |
| TraineeMapper.PatchedIdempotent | src/main/java/com/gym_project/mapper/TraineeMapper.java:48-63 | applying an update twice is applying it once |
| TraineeMapper.PatchedByEmptyDtoIsIdentity | src/main/java/com/gym_project/mapper/TraineeMapper.java:48-63 | an all-null update changes nothing, whatever its active flag |
| TraineeMapper.PatchedIgnoresActive | src/main/java/com/gym_project/dto/update/TraineeUpdateDto.java:16 | the DTO's active flag is never applied |
| TraineeMapper.PatchedComposes | src/main/java/com/gym_project/mapper/TraineeMapper.java:48-63 | two updates equal one update with the later non-null values winning |
| TrainerMapper.TraineeUsernames | src/main/java/com/gym_project/mapper/TrainerMapper.java:36-43 | the collected usernames are exactly the trainees' usernames, and there are no more of them than trainees |
| TrainerMapper.CollectedSetIsNoLarger | src/main/java/com/gym_project/mapper/TrainerMapper.java:38-41 | collecting into a set never gains elements |
| TrainerMapper.ToEntity | src/main/java/com/gym_project/mapper/TrainerMapper.java:14-24 | a fresh trainer with names and specialization copied, active, and everything else null |
| TrainerMapper.ToDto | src/main/java/com/gym_project/mapper/TrainerMapper.java:26-47 | username, names, active flag and specialization copied; trainee usernames present iff the set is non-null, and then exactly the trainees' usernames |
| TrainerMapper.Patched | src/main/java/com/gym_project/mapper/TrainerMapper.java:49-62 | names and specialization take the DTO's non-null values; id, username, password and active flag never change |
| TrainerMapper.UpdateEntity | src/main/java/com/gym_project/mapper/TrainerMapper.java:49-62 | the trainer's profile after the update is the patched profile; its trainees are untouched |
| TrainerMapper.PatchedIdempotent | src/main/java/com/gym_project/mapper/TrainerMapper.java:49-62 | applying an update twice is applying it once |
| TrainerMapper.PatchedByEmptyDtoIsIdentity | src/main/java/com/gym_project/mapper/TrainerMapper.java:49-62 | an all-null update changes nothing |
| TrainingMapper.ToDto | src/main/java/com/gym_project/mapper/TrainingMapper.java:8-22 | id, name, date and duration copied; trainee, trainer and type name read through the links |
| TraineeService.Validate | src/main/java/com/gym_project/service/impl/TraineeServiceImpl.java:221-242 | passes iff names and address are non-blank and the date of birth is present and not after today; otherwise the first failing check's message, in source order |
| TraineeService.ValidateUpdate | src/main/java/com/gym_project/service/impl/TraineeServiceImpl.java:201-219 | null fields pass; a blank name or address, or a future date of birth, fails with its message, in source order |
| TraineeService.BornTodayIsAccepted | src/main/java/com/gym_project/service/impl/TraineeServiceImpl.java:235-237 | a date of birth equal to today passes, since isAfter is strict |
| TraineeService.BornAfterTodayIsRefused | src/main/java/com/gym_project/service/impl/TraineeServiceImpl.java:211-214 | any date of birth after today is refused by create and by update, whatever the address |
| TraineeService.CreateValidIsUpdateValid | src/main/java/com/gym_project/service/impl/TraineeServiceImpl.java:201-242 | whatever passes create validation passes update validation |
| TraineeService.EmptyUpdateIsValid | src/main/java/com/gym_project/service/impl/TraineeServiceImpl.java:201-219 | an update setting nothing passes |
| TraineeService.ValidUpdateKeepsProfileValid | src/main/java/com/gym_project/service/impl/TraineeServiceImpl.java:86-103 | a validated update keeps a create-valid profile create-valid |
| TraineeService.Create | src/main/java/com/gym_project/service/impl/TraineeServiceImpl.java:36-55 | invalid input fails with the validation error and creates nothing; otherwise a fresh trainee with the generated username, the copied fields, active, a non-blank 10-character password built from the draws, and a response that its own credentials reproduce |
| TraineeService.ValidateCredentials | src/main/java/com/gym_project/service/impl/TraineeServiceImpl.java:175-199 | not found, then deactivated, then a null stored password (NullPointerException), then a mismatch; succeeds iff the trainee is found, active and the password equals the stored one, returning its DTO |
| TraineeService.DeactivatedRefusedWithRightPassword | src/main/java/com/gym_project/service/impl/TraineeServiceImpl.java:185-188 | an inactive trainee is refused even with the right password |
| TraineeService.Activate | src/main/java/com/gym_project/service/impl/TraineeServiceImpl.java:123-134 | a missing trainee fails; otherwise only the active flag changes, to true, and the trainee can then log in with its password |
| TraineeService.Deactivate | src/main/java/com/gym_project/service/impl/TraineeServiceImpl.java:136-147 | a missing trainee fails; otherwise only the active flag changes, to false, and every login is then refused as deactivated |
| TraineeService.ChangePassword | src/main/java/com/gym_project/service/impl/TraineeServiceImpl.java:149-161 | a null or blank password fails and changes nothing; an unknown username fails with the repository's message; otherwise only the password changes, and an active trainee can log in with it |
| TraineeService.Update | src/main/java/com/gym_project/service/impl/TraineeServiceImpl.java:84-103 | validation runs before the lookup and a failure changes nothing; a missing trainee fails; otherwise the profile is patched and its DTO returned |
| TrainerService.ValidateCreate | src/main/java/com/gym_project/service/impl/TrainerServiceImpl.java:185-195 | passes iff names and specialization are non-null and non-blank; otherwise the first failing "... cannot be empty" message |
| TrainerService.ValidateUpdate | src/main/java/com/gym_project/service/impl/TrainerServiceImpl.java:197-207 | null fields pass; the first present-but-blank field fails with "... cannot be blank" |
| TrainerService.CreateValidIsUpdateValid | src/main/java/com/gym_project/service/impl/TrainerServiceImpl.java:185-207 | whatever passes create validation passes update validation |
| TrainerService.EmptyUpdateIsValid | src/main/java/com/gym_project/service/impl/TrainerServiceImpl.java:197-207 | an update setting nothing passes |
| TrainerService.ValidUpdateKeepsFieldsFilled | src/main/java/com/gym_project/service/impl/TrainerServiceImpl.java:65-76 | a validated update keeps every non-blank field non-blank |
| TrainerService.Create | src/main/java/com/gym_project/service/impl/TrainerServiceImpl.java:32-47 | invalid input fails with the validation error and creates nothing; otherwise a fresh trainer with the generated username, the copied fields, active and no password |
| TrainerService.TrainerWithoutPasswordCannotLogIn | src/main/java/com/gym_project/service/impl/TrainerServiceImpl.java:41-44 | an active trainer stored without a password fails every login with NullPointerException |
| TrainerService.CreateWithPassword | src/main/java/com/gym_project/service/impl/TrainerServiceImpl.java:32-47 | as Create, and the trainer also gets a non-blank 10-character generated password, with which its credentials check succeeds |
| TrainerService.ValidateCredentials | src/main/java/com/gym_project/service/impl/TrainerServiceImpl.java:168-183 | not found, then deactivated, then a null stored password (NullPointerException), then a mismatch; succeeds iff found, active and the password matches, returning its DTO |
| TrainerService.DeactivatedRefusedWithRightPassword | src/main/java/com/gym_project/service/impl/TrainerServiceImpl.java:174-176 | an inactive trainer is refused even with the right password |
| TrainerService.Activate | src/main/java/com/gym_project/service/impl/TrainerServiceImpl.java:85-91 | a missing trainer fails; otherwise only the active flag changes, to true, and the trainer can then log in with its password |
| TrainerService.Deactivate | src/main/java/com/gym_project/service/impl/TrainerServiceImpl.java:93-99 | a missing trainer fails; otherwise only the active flag changes, to false, and every login is then refused as deactivated |
| TrainerService.ChangePassword | src/main/java/com/gym_project/service/impl/TrainerServiceImpl.java:101-107 | a null or blank password fails and changes nothing; an unknown username fails with the repository's message; otherwise only the password changes, and an active trainer can log in with it |
| TrainerService.Update | src/main/java/com/gym_project/service/impl/TrainerServiceImpl.java:65-76 | validation runs before the lookup and a failure changes nothing; a missing trainer fails; otherwise the profile is patched and its DTO returned |
| TrainerService.ClearRoster | src/main/java/com/gym_project/service/impl/TrainerServiceImpl.java:146-151 | fails with NullPointerException iff a trainer on the roster has a null set, and then the roster is not yet cleared and each trainer on it is untouched or has lost the trainee; otherwise each old trainer loses the trainee, the roster is emptied, and a symmetric relation stays symmetric |
| TrainerService.ResolveTrainers | src/main/java/com/gym_project/service/impl/TrainerServiceImpl.java:153-156 | succeeds iff every username is stored, giving the trainers in input order with duplicates; otherwise fails naming the first missing username |
| TrainerService.LinkAll | src/main/java/com/gym_project/service/impl/TrainerServiceImpl.java:158-161 | fails with NullPointerException iff some set it reaches is null, and then the trainers before the failing position are linked on both sides, the one at it has gained the trainee when its own set was not null, and the later ones are untouched; otherwise each trainer gains the trainee, the roster gains every trainer, and a symmetric relation stays symmetric |
| TrainerService.ToDtos | src/main/java/com/gym_project/service/impl/TrainerServiceImpl.java:163-165 | one DTO per trainer, in order |
| TrainerService.ReplaceTrainers | src/main/java/com/gym_project/service/impl/TrainerServiceImpl.java:146-161 | on success the roster is exactly the resolved trainers, each of them lists the trainee, each dropped trainer no longer does, every other trainer is untouched, and a symmetric relation stays symmetric; a missing username fails with "Trainer not found: " and that name, leaves the old links cleared, touches no other trainer and keeps a symmetric relation symmetric; a NullPointerException while clearing leaves the roster as it was, each old trainer untouched or without the trainee, and every other trainer untouched; a NullPointerException while linking leaves a roster within the resolved trainers, each dropped trainer without the trainee, each resolved trainer changed only in whether it lists the trainee, and every other trainer untouched |
| TrainerService.UpdateTraineeTrainers | src/main/java/com/gym_project/service/impl/TrainerServiceImpl.java:134-166 | a blank username, then a missing trainee, fail before any change; then the three phases as in ReplaceTrainers, returning one DTO per requested username, in order; a missing trainer name leaves the old links cleared, touches no other trainer and keeps a symmetric relation symmetric; each NullPointerException leaves the state ReplaceTrainers describes |
| TrainingService.Validate | src/main/java/com/gym_project/service/impl/TrainingServiceImpl.java:76-107 | passes iff all six fields are present, the strings non-blank and the duration positive; otherwise the first failing check's message, in source order |
| TrainingService.ZeroDurationIsRefused | src/main/java/com/gym_project/service/impl/TrainingServiceImpl.java:103-106 | a zero duration is refused even when all else is valid |
| TrainingService.Link | src/main/java/com/gym_project/service/impl/TrainingServiceImpl.java:61-66 | links are added only when the trainer lacks the trainee, trainer side first, a null set throwing; after success the trainer lists the trainee, and a symmetric relation stays symmetric |
| TrainingService.Resolve | src/main/java/com/gym_project/service/impl/TrainingServiceImpl.java:33-51 | validation, then "Trainee not found", "Trainer not found", "Training type not found" in that order; success returns the looked-up entities |
| TrainingService.NewTraining | src/main/java/com/gym_project/service/impl/TrainingServiceImpl.java:53-59 | a fresh training referencing the looked-up parties, with the requested name, date and duration |
| TrainingService.Create | src/main/java/com/gym_project/service/impl/TrainingServiceImpl.java:25-74 | a lookup failure changes nothing; success iff the sets it dereferences are non-null; the training carries the request; both sides become linked; the response echoes the request; a symmetric relation stays symmetric |
| TrainerRepository.ParamNamesConcat | src/main/java/com/gym_project/repository/impl/TrainerRepositoryImpl.java:148-154 | the named parameters of appended text are those of its parts |
| TrainerRepository.ParamNamesOfReference | src/main/java/com/gym_project/repository/impl/TrainerRepositoryImpl.java:148 | plain text followed by `:name` refers to that name only |
| TrainerRepository.NamesAreDistinct | src/main/java/com/gym_project/repository/impl/TrainerRepositoryImpl.java:157-162 | the four parameter names are pairwise distinct |
| TrainerRepository.ClauseParamNames | src/main/java/com/gym_project/repository/impl/TrainerRepositoryImpl.java:148-153 | the base query refers to `username` alone, and each clause to its own parameter alone |
| TrainerRepository.QueryTextParamNames | src/main/java/com/gym_project/repository/impl/TrainerRepositoryImpl.java:148-154 | the query refers to `username` and to exactly the parameters of the clauses present |
| TrainerRepository.AppendClauses | src/main/java/com/gym_project/repository/impl/TrainerRepositoryImpl.java:148-154 | the text is the base query, then the from, to and trainee-name clauses in that order, each iff its filter value is present (the name also non-blank) |
| TrainerRepository.BindParameters | src/main/java/com/gym_project/repository/impl/TrainerRepositoryImpl.java:156-163 | `username` is always bound; each other parameter is bound iff its clause is present, dates as given and the name as "%" + name + "%" |
| TrainerRepository.BuildTrainingsQuery | src/main/java/com/gym_project/repository/impl/TrainerRepositoryImpl.java:145-166 | the text as in AppendClauses, the bindings as in BindParameters, and the bound names are exactly the names the text refers to |
| TrainerRepository.UsernamePattern | src/main/java/com/gym_project/repository/impl/TrainerRepositoryImpl.java:136-143 | the LIKE pattern is the base followed by one `%` |
| TrainerRepository.PercentMatchesAll | src/main/java/com/gym_project/repository/impl/TrainerRepositoryImpl.java:141 | under LIKE a lone `%` matches every text |
| TrainerRepository.PrefixMatchesUsernamePattern | src/main/java/com/gym_project/repository/impl/TrainerRepositoryImpl.java:136-143 | every username that starts with the base matches the pattern, whatever the base holds |
| TrainerRepository.UsernamePatternMatchesOnlyPrefixes | src/main/java/com/gym_project/repository/impl/TrainerRepositoryImpl.java:136-143 | for a base without `%` or `_`, only usernames that start with the base match |
| TrainerRepository.UnderscoreWidensUsernamePattern | src/main/java/com/gym_project/repository/impl/TrainerRepositoryImpl.java:136-143 | an `_` in the base is a wildcard: "axb.c" matches the pattern of "a_b.c" without starting with it |

## Left out

- JPA persistence (`persist`, `merge`, `remove`, `find`, `createQuery`). A repository is a map, and `save` is left out because the returned objects are the in-memory entities; the id it assigns to a training is the parameter `savedId`. The id `persist` assigns to a new trainee's or trainer's user is not modelled: after `create` the model's `user.id` is still None.
- Evaluation of the queries by the database. This covers the date and name filters and `findUnassignedTrainersByTraineeUsername`'s NOT MEMBER OF query. The usernames the LIKE query returns are a parameter. `Like` states which usernames its pattern matches, but the query over the table is not run. Because the generator filters with `startsWith` again, the extra names an `_` lets through change nothing.
- Transactions. `@Transactional` rollback would undo the database effect of a method that throws, but the model keeps the in-memory changes made before the exception. These are the cleared roster before a missing trainer name, the partly cleared roster before a null trainer set, and the links made before a null set while linking. After such a NullPointerException the trainee and trainer sides may disagree, so the model claims no symmetry on those paths. No claim of atomicity is made.
- Security: `@PreAuthorize`, `AuthService`'s thread-local context and `SecurityConfig`.
- Logging and bootstrapping (`AppRunner`, `GymApplication`).
- Randomness: `SecureRandom.nextInt(62)` is the input sequence `draws`, assumed in range as `nextInt` promises. Randomness quality is out of scope.
- `LocalDate.now()` is the parameter `today`; a date is a year, month and day compared lexicographically.
- `Integer.parseInt` is modelled for ASCII digits only; Java also accepts other Unicode decimal digits.
- `getByUsername`, `getAll`, `deleteByUsername` and `getTrainings` are lookups or database queries with no logic beyond a "not found" error; their query parts are covered above. `getUnassignedTrainersByTraineeUsername` refuses a null or blank username and otherwise only maps the result of a database query; the query is not modelled. The trainings collections and cascade/orphan-removal annotations have no behaviour here.
- A null filter DTO passed to `findTrainingsByTrainerAndFilter` would throw NullPointerException; the query changes nothing. A null DTO or a null trainer username list passed to `updateTraineeTrainers` would throw NullPointerException after the old links are cleared, and a null element of the list fails with "Trainer not found: null". The model takes the list as a `seq<string>`, which holds neither case.
- TrainingMapper.ToDto: requires the three links to be non-null, where Java throws NullPointerException; every caller in the model sets them.
- TrainingService.Link: does not promise that the trainee lists the trainer when the trainer already listed the trainee, because the code skips the block in that case. TrainingService.Create states it when the link was new or the relation was symmetric before.
- TrainerRepository.AppendClauses: the query constants are written as concatenations of shorter pieces with the same characters.
- Set identity: Java sets compare entities by reference (no `equals` override), which the model matches by using object identity. Whether two rosters share a set object is not modelled: each entity's set is its own value.
- `Trainee.java` declares no `trainers` field, but the mapper and the services use one. The model gives `Trainee` the field the code uses.
- `TraineeResponseDto.java` declares no `trainerUsernames` field, but `TraineeMapper` sets one. The model gives the DTO the field the mapper uses.
- Where the design description and the code differ, the model follows the code:
  - suffixes may carry a sign;
  - `maxIndex + 1` wraps at 2^31 - 1, and past that point freshness fails (`OverflowBreaksFreshness`);
  - the roster update clears the old links before the lookups, so a missing name leaves the trainee with an empty roster in memory instead of the old one.

## Findings

| source | as written | input that shows it | evidently intended | confidence | as-written member | corrected member |
|---|---|---|---|---|---|---|
| src/main/java/com/gym_project/service/impl/TrainerServiceImpl.java:41-44 | `create` sets the username but never a password, unlike trainee creation, so the trainer is saved with a null password; `User.java:28` declares the password column `nullable = false`, so against a real database the insert would more likely fail at `save`, and the model does not capture that constraint | any valid TrainerCreateDto, then `validateCredentials` for the new username with any password: `trainer.getPassword().equals(password)` throws NullPointerException | generate a password, as `TraineeServiceImpl.create` does, so the new trainer can log in | high, not executed | TrainerService.TrainerWithoutPasswordCannotLogIn | TrainerService.CreateWithPassword |
