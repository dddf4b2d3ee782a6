/** TrainerRepositoryImpl: the text and the parameters of the JPQL query
    findTrainingsByTrainerAndFilter builds, and the LIKE pattern of
    findUsernamesStartingWith. Running the queries is left to the database
    and is not part of this model. */
module TrainerRepository {
  import opened Wrappers
  import opened JavaLang
  import opened Entities
  import opened Dto

  // ---------------------------------------------------------------------
  // Named parameters in query text

  /** The characters a JPQL named parameter is made of after its ':'. */
  predicate IsIdentifierChar(c: char) {
    'a' <= c <= 'z' || 'A' <= c <= 'Z' || '0' <= c <= '9' || c == '_' || c == '$'
  }

  predicate NoColon(s: string) {
    forall i :: 0 <= i < |s| ==> s[i] != ':'
  }

  /** A text that does not start with an identifier character ends any
      parameter name in front of it. */
  predicate Separated(s: string) {
    |s| == 0 || !IsIdentifierChar(s[0])
  }

  /** s[i] is the ':' of a named parameter whose name is s[i + 1..j]: a
      non-empty run of identifier characters that the text does not extend. */
  predicate ParamAt(s: string, i: int, j: int) {
    && 0 <= i && i + 1 < j <= |s| && s[i] == ':'
    && (forall k :: i < k < j ==> IsIdentifierChar(s[k]))
    && (j == |s| || !IsIdentifierChar(s[j]))
  }

  /** The names of the `:name` parameters the text refers to. */
  function ParamNames(s: string): set<string> {
    set i, j | 0 <= i < j <= |s| && ParamAt(s, i, j) :: s[i + 1..j]
  }

  lemma ParamAtConcatLeft(a: string, b: string, i: int, j: int)
    requires Separated(b) && 0 <= i < |a|
    ensures ParamAt(a + b, i, j) <==> ParamAt(a, i, j)
  {
    var s := a + b;
    assert |b| > 0 ==> s[|a|] == b[0];
    if ParamAt(s, i, j) {
      assert a[i] == s[i];
      forall k | i < k < j ensures IsIdentifierChar(a[k]) {
        assert a[k] == s[k];
      }
      if j < |a| {
        assert a[j] == s[j];
      }
    }
    if ParamAt(a, i, j) {
      assert s[i] == a[i];
      forall k | i < k < j ensures IsIdentifierChar(s[k]) {
        assert s[k] == a[k];
      }
      if j < |a| {
        assert s[j] == a[j];
      } else if j < |s| {
        assert s[j] == b[0];
      }
    }
  }

  lemma ParamAtConcatRight(a: string, b: string, i: int, j: int)
    requires |a| <= i
    ensures ParamAt(a + b, i, j) <==> ParamAt(b, i - |a|, j - |a|)
  {
    var s, d := a + b, |a|;
    if ParamAt(b, i - d, j - d) {
      forall k | i < k < j ensures IsIdentifierChar(s[k]) {
        assert s[k] == b[k - d];
      }
      assert j < |s| ==> s[j] == b[j - d];
    }
    if ParamAt(s, i, j) {
      forall k | i - d < k < j - d ensures IsIdentifierChar(b[k]) {
        assert b[k] == s[k + d];
      }
      assert j - d < |b| ==> b[j - d] == s[j];
      assert b[i - d] == s[i];
    }
  }

  lemma ParamNamesOfConcatFromParts(a: string, b: string)
    requires Separated(b)
    ensures ParamNames(a + b) <= ParamNames(a) + ParamNames(b)
  {
    var s := a + b;
    forall x | x in ParamNames(s) ensures x in ParamNames(a) + ParamNames(b) {
      var i, j :| 0 <= i < j <= |s| && ParamAt(s, i, j) && x == s[i + 1..j];
      if i < |a| {
        ParamAtConcatLeft(a, b, i, j);
        assert s[i + 1..j] == a[i + 1..j];
      } else {
        ParamAtConcatRight(a, b, i, j);
        assert s[i + 1..j] == s[|a|..][i - |a| + 1..j - |a|];
        assert s[|a|..] == b;
      }
    }
  }

  lemma ParamNamesOfPartsInConcat(a: string, b: string)
    requires Separated(b)
    ensures ParamNames(a) + ParamNames(b) <= ParamNames(a + b)
  {
    var s := a + b;
    forall x | x in ParamNames(a) ensures x in ParamNames(s) {
      var i, j :| 0 <= i < j <= |a| && ParamAt(a, i, j) && x == a[i + 1..j];
      ParamAtConcatLeft(a, b, i, j);
      assert s[i + 1..j] == a[i + 1..j];
    }
    forall x | x in ParamNames(b) ensures x in ParamNames(s) {
      var i, j :| 0 <= i < j <= |b| && ParamAt(b, i, j) && x == b[i + 1..j];
      ParamAtConcatRight(a, b, i + |a|, j + |a|);
      assert s[i + |a| + 1..j + |a|] == b[i + 1..j];
    }
  }

  /** The parameters of a concatenation are those of its parts, when the
      second part does not extend a name the first ends with. */
  lemma ParamNamesConcat(a: string, b: string)
    requires Separated(b)
    ensures ParamNames(a + b) == ParamNames(a) + ParamNames(b)
  {
    ParamNamesOfConcatFromParts(a, b);
    ParamNamesOfPartsInConcat(a, b);
  }

  lemma NoColonConcat(a: string, b: string)
    requires NoColon(a) && NoColon(b)
    ensures NoColon(a + b)
  {
    forall i | 0 <= i < |a + b| ensures (a + b)[i] != ':' {
      if i >= |a| {
        assert (a + b)[i] == b[i - |a|];
      }
    }
  }

  lemma ParamNamesOfPlainText(s: string)
    requires NoColon(s)
    ensures ParamNames(s) == {}
  {
  }

  predicate IsIdentifier(name: string) {
    |name| > 0 && forall i :: 0 <= i < |name| ==> IsIdentifierChar(name[i])
  }

  /** Plain text followed by ':' and a name refers to that name only. */
  lemma ParamNamesOfReference(text: string, name: string)
    requires NoColon(text) && IsIdentifier(name)
    ensures ParamNames(text + ":" + name) == {name}
  {
    var s, c := text + ":" + name, |text|;
    assert s[c] == ':';
    assert forall k :: 0 <= k < c ==> s[k] == text[k];
    assert forall k :: c < k < |s| ==> s[k] == name[k - c - 1];
    assert ParamAt(s, c, |s|) && s[c + 1..|s|] == name;
    assert forall i, j :: 0 <= i < j <= |s| && ParamAt(s, i, j) ==> i == c && j == |s|;
  }

  // ---------------------------------------------------------------------
  // findTrainingsByTrainerAndFilter

  /** The parameter names, as the query text and setParameter spell them. */
  const USERNAME: string := "username"
  const FROM_DATE: string := "fromDate"
  const TO_DATE: string := "toDate"
  const TRAINEE_NAME: string := "traineeName"

  /** The query text: the base and the three clauses, each parameter
      written as ':' followed by its name. */
  const SELECT_TEXT: string := "SELECT tr FROM Training tr " + "WHERE tr.trainer.username = "
  const TRAININGS_BY_TRAINER: string := SELECT_TEXT + ":" + USERNAME
  const FROM_DATE_CLAUSE: string := " AND tr.trainingDate >= " + ":" + FROM_DATE
  const TO_DATE_CLAUSE: string := " AND tr.trainingDate <= " + ":" + TO_DATE
  const TRAINEE_NAME_CLAUSE: string :=
    " AND (tr.trainee.firstName LIKE " + ":" + TRAINEE_NAME + " OR tr.trainee.lastName LIKE " + ":" + TRAINEE_NAME + ")"

  /** The value of a bound parameter: a string (possibly null) or a date. */
  datatype Param = Text(text: JString) | Day(date: Date)

  /** The query text with the clauses present, in their fixed order. */
  function QueryText(hasFrom: bool, hasTo: bool, hasName: bool): string {
    TRAININGS_BY_TRAINER + Clause(hasFrom, FROM_DATE_CLAUSE) + Clause(hasTo, TO_DATE_CLAUSE)
    + Clause(hasName, TRAINEE_NAME_CLAUSE)
  }

  /** A clause that is appended only when its filter value is present. */
  function Clause(present: bool, clause: string): string {
    if present then clause else ""
  }

  lemma NamesAreIdentifiers()
    ensures IsIdentifier(USERNAME) && IsIdentifier(FROM_DATE) && IsIdentifier(TO_DATE)
    ensures IsIdentifier(TRAINEE_NAME)
  {
  }

  lemma NamesAreDistinct()
    ensures USERNAME != FROM_DATE && USERNAME != TO_DATE && USERNAME != TRAINEE_NAME
    ensures FROM_DATE != TO_DATE && FROM_DATE != TRAINEE_NAME && TO_DATE != TRAINEE_NAME
  {
    assert USERNAME[0] != FROM_DATE[0] && USERNAME[0] != TO_DATE[0] && USERNAME[0] != TRAINEE_NAME[0];
    assert FROM_DATE[0] != TO_DATE[0] && FROM_DATE[0] != TRAINEE_NAME[0];
    assert |TO_DATE| != |TRAINEE_NAME|;
  }

  lemma SelectTextIsPlain()
    ensures NoColon(SELECT_TEXT)
  {
    assert NoColon("SELECT tr FROM Training tr ");
    assert NoColon("WHERE tr.trainer.username = ");
    NoColonConcat("SELECT tr FROM Training tr ", "WHERE tr.trainer.username = ");
  }

  lemma ClauseTextsArePlain()
    ensures NoColon(" AND tr.trainingDate >= ") && NoColon(" AND tr.trainingDate <= ")
    ensures NoColon(" AND (tr.trainee.firstName LIKE ") && NoColon(" OR tr.trainee.lastName LIKE ")
    ensures NoColon(")")
  {
  }

  lemma ClauseParamNames()
    ensures ParamNames(TRAININGS_BY_TRAINER) == {USERNAME}
    ensures ParamNames(FROM_DATE_CLAUSE) == {FROM_DATE}
    ensures ParamNames(TO_DATE_CLAUSE) == {TO_DATE}
    ensures ParamNames(TRAINEE_NAME_CLAUSE) == {TRAINEE_NAME}
  {
    NamesAreIdentifiers();
    SelectTextIsPlain();
    ClauseTextsArePlain();
    ParamNamesOfReference(SELECT_TEXT, USERNAME);
    ParamNamesOfReference(" AND tr.trainingDate >= ", FROM_DATE);
    ParamNamesOfReference(" AND tr.trainingDate <= ", TO_DATE);
    var first := " AND (tr.trainee.firstName LIKE " + ":" + TRAINEE_NAME;
    var last := " OR tr.trainee.lastName LIKE " + ":" + TRAINEE_NAME;
    ParamNamesOfReference(" AND (tr.trainee.firstName LIKE ", TRAINEE_NAME);
    ParamNamesOfReference(" OR tr.trainee.lastName LIKE ", TRAINEE_NAME);
    ParamNamesOfPlainText(")");
    assert TRAINEE_NAME_CLAUSE == first + last + ")";
    ParamNamesConcat(first, last);
    ParamNamesConcat(first + last, ")");
  }

  /** Every named parameter of the text belongs to a clause that is present. */
  lemma QueryTextParamNames(hasFrom: bool, hasTo: bool, hasName: bool)
    ensures ParamNames(QueryText(hasFrom, hasTo, hasName))
            == {USERNAME} + (if hasFrom then {FROM_DATE} else {}) + (if hasTo then {TO_DATE} else {})
               + (if hasName then {TRAINEE_NAME} else {})
  {
    ClauseParamNames();
    var from, to, name := Clause(hasFrom, FROM_DATE_CLAUSE), Clause(hasTo, TO_DATE_CLAUSE),
                          Clause(hasName, TRAINEE_NAME_CLAUSE);
    ParamNamesOfPlainText("");
    ParamNamesConcat(TRAININGS_BY_TRAINER, from);
    ParamNamesConcat(TRAININGS_BY_TRAINER + from, to);
    ParamNamesConcat(TRAININGS_BY_TRAINER + from + to, name);
  }

  /** The `filter.getTraineeName() != null && !isBlank()` test. */
  predicate FiltersByName(filter: TrainerTrainingFilterDto) {
    !NullOrBlank(filter.traineeName)
  }

  /** The StringBuilder of findTrainingsByTrainerAndFilter: the base
      query, then the clauses whose filter values are present. */
  method AppendClauses(filter: TrainerTrainingFilterDto) returns (jpql: string)
    ensures jpql == QueryText(filter.fromDate.Some?, filter.toDate.Some?, FiltersByName(filter))
    ensures StartsWith(jpql, TRAININGS_BY_TRAINER)
  {
    var hasFrom, hasTo, hasName := filter.fromDate.Some?, filter.toDate.Some?, FiltersByName(filter);
    var sb := TRAININGS_BY_TRAINER;
    if hasFrom {
      sb := sb + FROM_DATE_CLAUSE;
    } else {
      assert sb == sb + Clause(hasFrom, FROM_DATE_CLAUSE);
    }
    ghost var afterFrom := sb;
    if hasTo {
      sb := sb + TO_DATE_CLAUSE;
    } else {
      assert sb == sb + Clause(hasTo, TO_DATE_CLAUSE);
    }
    ghost var afterTo := sb;
    if hasName {
      sb := sb + TRAINEE_NAME_CLAUSE;
    } else {
      assert sb == sb + Clause(hasName, TRAINEE_NAME_CLAUSE);
    }
    jpql := sb;
    assert afterFrom == TRAININGS_BY_TRAINER + Clause(hasFrom, FROM_DATE_CLAUSE);
    assert afterTo == afterFrom + Clause(hasTo, TO_DATE_CLAUSE);
    assert jpql == afterTo + Clause(hasName, TRAINEE_NAME_CLAUSE);
    StartsWithConcat(TRAININGS_BY_TRAINER, Clause(hasFrom, FROM_DATE_CLAUSE));
    StartsWithExtend(afterFrom, TRAININGS_BY_TRAINER, Clause(hasTo, TO_DATE_CLAUSE));
    StartsWithExtend(afterTo, TRAININGS_BY_TRAINER, Clause(hasName, TRAINEE_NAME_CLAUSE));
  }

  /** The setParameter calls: username always, each other parameter when
      its clause was appended. */
  method BindParameters(trainerUsername: JString, filter: TrainerTrainingFilterDto)
    returns (params: map<string, Param>)
    ensures params.Keys == {USERNAME} + (if filter.fromDate.Some? then {FROM_DATE} else {})
                           + (if filter.toDate.Some? then {TO_DATE} else {})
                           + (if FiltersByName(filter) then {TRAINEE_NAME} else {})
    ensures USERNAME in params && params[USERNAME] == Text(trainerUsername)
    ensures FROM_DATE in params <==> filter.fromDate.Some?
    ensures TO_DATE in params <==> filter.toDate.Some?
    ensures TRAINEE_NAME in params <==> FiltersByName(filter)
    ensures FROM_DATE in params ==> params[FROM_DATE] == Day(filter.fromDate.value)
    ensures TO_DATE in params ==> params[TO_DATE] == Day(filter.toDate.value)
    ensures TRAINEE_NAME in params ==> params[TRAINEE_NAME] == Text(Some("%" + filter.traineeName.value + "%"))
  {
    NamesAreDistinct();
    params := map[USERNAME := Text(trainerUsername)];
    if filter.fromDate.Some? {
      params := params[FROM_DATE := Day(filter.fromDate.value)];
    }
    if filter.toDate.Some? {
      params := params[TO_DATE := Day(filter.toDate.value)];
    }
    if FiltersByName(filter) {
      params := params[TRAINEE_NAME := Text(Some("%" + filter.traineeName.value + "%"))];
    }
  }

  /** findTrainingsByTrainerAndFilter up to getResultList: the query text
      and the bound parameters. */
  method BuildTrainingsQuery(trainerUsername: JString, filter: TrainerTrainingFilterDto)
    returns (jpql: string, params: map<string, Param>)
    ensures jpql == QueryText(filter.fromDate.Some?, filter.toDate.Some?, FiltersByName(filter))
    ensures StartsWith(jpql, TRAININGS_BY_TRAINER)
    ensures params.Keys == ParamNames(jpql)
    ensures USERNAME in params && params[USERNAME] == Text(trainerUsername)
    ensures FROM_DATE in params <==> filter.fromDate.Some?
    ensures FROM_DATE in params ==> params[FROM_DATE] == Day(filter.fromDate.value)
    ensures TO_DATE in params <==> filter.toDate.Some?
    ensures TO_DATE in params ==> params[TO_DATE] == Day(filter.toDate.value)
    ensures TRAINEE_NAME in params <==> FiltersByName(filter)
    ensures TRAINEE_NAME in params ==> params[TRAINEE_NAME] == Text(Some("%" + filter.traineeName.value + "%"))
  {
    jpql := AppendClauses(filter);
    params := BindParameters(trainerUsername, filter);
    QueryTextParamNames(filter.fromDate.Some?, filter.toDate.Some?, FiltersByName(filter));
  }

  // ---------------------------------------------------------------------
  // findUsernamesStartingWith

  /** The LIKE pattern bound to `:pattern`: the base followed by the
      any-suffix wildcard. */
  function UsernamePattern(base: string): (pattern: string)
    ensures |pattern| == |base| + 1
    ensures StartsWith(pattern, base)
    ensures pattern[|base|] == '%'
  {
    StartsWithConcat(base, "%");
    base + "%"
  }

  /** JPQL LIKE with no escape character: `%` matches any run of characters,
      `_` any one character, and every other character itself. */
  predicate Like(s: string, pattern: string)
    decreases |s| + |pattern|
  {
    if pattern == [] then s == []
    else if pattern[0] == '%' then Like(s, pattern[1..]) || (|s| > 0 && Like(s[1..], pattern))
    else |s| > 0 && (pattern[0] == '_' || s[0] == pattern[0]) && Like(s[1..], pattern[1..])
  }

  /** Text in which LIKE sees no wildcard. */
  predicate NoWildcard(s: string) {
    forall i :: 0 <= i < |s| ==> s[i] != '%' && s[i] != '_'
  }

  /** A lone `%` matches every text. */
  lemma {:induction false} PercentMatchesAll(s: string)
    ensures Like(s, "%")
  {
    if |s| > 0 {
      PercentMatchesAll(s[1..]);
    }
  }

  /** The pattern of a non-empty base: the base's first character, then
      the pattern of the rest of the base. */
  lemma UsernamePatternTail(base: string)
    requires |base| > 0
    ensures UsernamePattern(base)[0] == base[0]
    ensures UsernamePattern(base)[1..] == UsernamePattern(base[1..])
  {
  }

  /** Every username that starts with the base is returned by
      findUsernamesStartingWith, whatever the base holds. */
  lemma {:induction false} PrefixMatchesUsernamePattern(base: string, name: string)
    requires StartsWith(name, base)
    ensures Like(name, UsernamePattern(base))
  {
    if base == [] {
      assert UsernamePattern(base) == "%";
      PercentMatchesAll(name);
    } else {
      assert name[1..][..|base| - 1] == base[1..];
      PrefixMatchesUsernamePattern(base[1..], name[1..]);
      UsernamePatternTail(base);
    }
  }

  /** For a base without wildcards, findUsernamesStartingWith returns only
      usernames that start with the base. */
  lemma {:induction false} UsernamePatternMatchesOnlyPrefixes(base: string, name: string)
    requires NoWildcard(base) && Like(name, UsernamePattern(base))
    ensures StartsWith(name, base)
  {
    if base != [] {
      UsernamePatternTail(base);
      assert base[0] != '%' && base[0] != '_';
      UsernamePatternMatchesOnlyPrefixes(base[1..], name[1..]);
      assert name[..|base|] == [name[0]] + name[1..][..|base| - 1];
    }
  }

  /** An `_` in a name is a LIKE wildcard: for the base "a_b.c" the query
      also returns "axb.c", which does not start with the base. */
  lemma UnderscoreWidensUsernamePattern()
    ensures Like("axb.c", UsernamePattern("a_b.c"))
    ensures !StartsWith("axb.c", "a_b.c")
  {
    assert UsernamePattern("a_b.c") == "a_b.c%";
    PercentMatchesAll("");
    assert "axb.c"[..5][1] != "a_b.c"[1];
  }
}
