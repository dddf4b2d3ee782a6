/** UsernameGenerator.generate: derive a username from a first and a last
    name that is not among the usernames already taken.

    The base is `first + "." + last`. Every taken name that literally starts
    with the base contributes the integer its suffix parses to (an empty or
    non-numeric suffix contributes 0). With no contribution the base itself
    is returned, otherwise the base followed by the largest contribution
    plus one, in Java `int` arithmetic. */
module UsernameGenerator {
  import opened Wrappers
  import opened JavaLang

  function Base(firstName: string, lastName: string): (base: string)
    ensures |base| == |firstName| + 1 + |lastName|
  {
    firstName + "." + lastName
  }

  /** The index a taken name that starts with the base contributes. */
  function SuffixIndex(base: string, name: string): (k: int)
    requires StartsWith(name, base)
    ensures IsInt32(k)
    ensures name == base ==> k == 0
  {
    var suffix := name[|base|..];
    if suffix == [] then 0
    else match ParseInt(suffix)
      case Some(v) => v
      case None => 0
  }

  /** The stream's `filter(startsWith).map(SuffixIndex).max()`: None when no
      taken name starts with the base, otherwise the largest index. */
  function MaxIndex(base: string, taken: seq<string>): (m: Option<int>)
    ensures m.None? <==> forall i :: 0 <= i < |taken| ==> !StartsWith(taken[i], base)
    ensures m.Some? ==> forall i :: 0 <= i < |taken| && StartsWith(taken[i], base) ==>
                          SuffixIndex(base, taken[i]) <= m.value
    ensures m.Some? ==> exists i :: 0 <= i < |taken| && StartsWith(taken[i], base) &&
                          SuffixIndex(base, taken[i]) == m.value
  {
    if taken == [] then None
    else
      var rest := MaxIndex(base, taken[1..]);
      assert forall i :: 1 <= i < |taken| ==> taken[i] == taken[1..][i - 1];
      if !StartsWith(taken[0], base) then rest
      else
        var k := SuffixIndex(base, taken[0]);
        if rest.Some? && rest.value > k then rest else Some(k)
  }

  /** UsernameGenerator.generate, with the usernames as a sequence (the
      callers pass a List). `orElse(-1)` makes -1 the "no match" value. */
  function Generate(firstName: string, lastName: string, taken: seq<string>): (username: string)
    ensures StartsWith(username, Base(firstName, lastName))
    ensures (forall i :: 0 <= i < |taken| ==> !StartsWith(taken[i], Base(firstName, lastName)))
            ==> username == Base(firstName, lastName)
  {
    var base := Base(firstName, lastName);
    var maxIndex := match MaxIndex(base, taken) case None => -1 case Some(m) => m;
    if maxIndex == -1 then base
    else
      var nextUsersIndex := Wrap32(maxIndex + 1);
      StartsWithConcat(base, IntToString(nextUsersIndex));
      base + IntToString(nextUsersIndex)
  }

  // ---------------------------------------------------------------------
  // Properties

  /** The largest index depends on the taken usernames only through their set. */
  lemma MaxIndexDependsOnlyOnMembership(base: string, a: seq<string>, b: seq<string>)
    requires forall x :: x in a <==> x in b
    ensures MaxIndex(base, a) == MaxIndex(base, b)
  {
    var ma, mb := MaxIndex(base, a), MaxIndex(base, b);
    if ma.Some? {
      var i :| 0 <= i < |a| && StartsWith(a[i], base) && SuffixIndex(base, a[i]) == ma.value;
      assert a[i] in a;
      var j :| 0 <= j < |b| && b[j] == a[i];
      var j' :| 0 <= j' < |b| && StartsWith(b[j'], base) && SuffixIndex(base, b[j']) == mb.value;
      assert b[j'] in b;
      var i' :| 0 <= i' < |a| && a[i'] == b[j'];
      assert ma.value >= mb.value && mb.value >= ma.value;
    } else {
      forall j | 0 <= j < |b| ensures !StartsWith(b[j], base) {
        assert b[j] in b;
        var i :| 0 <= i < |a| && a[i] == b[j];
      }
    }
  }

  /** The result depends on the taken usernames only through the largest index. */
  lemma GenerateDependsOnlyOnMaxIndex(firstName: string, lastName: string, a: seq<string>, b: seq<string>)
    requires MaxIndex(Base(firstName, lastName), a) == MaxIndex(Base(firstName, lastName), b)
    ensures Generate(firstName, lastName, a) == Generate(firstName, lastName, b)
  {
  }

  /** The result depends on the taken usernames only through their set:
      modelling the declared Set parameter by the callers' List is sound. */
  lemma GenerateDependsOnlyOnMembership(firstName: string, lastName: string, a: seq<string>, b: seq<string>)
    requires forall x :: x in a <==> x in b
    ensures Generate(firstName, lastName, a) == Generate(firstName, lastName, b)
  {
    MaxIndexDependsOnlyOnMembership(Base(firstName, lastName), a, b);
    GenerateDependsOnlyOnMaxIndex(firstName, lastName, a, b);
  }

  /** A name whose index exceeds every taken index is not taken. */
  lemma NameAboveAllIndicesIsFresh(base: string, taken: seq<string>, name: string)
    requires StartsWith(name, base)
    requires forall i :: 0 <= i < |taken| && StartsWith(taken[i], base) ==>
               SuffixIndex(base, taken[i]) < SuffixIndex(base, name)
    ensures name !in taken
  {
    forall i | 0 <= i < |taken| ensures taken[i] != name {
      if StartsWith(taken[i], base) {
        assert SuffixIndex(base, taken[i]) < SuffixIndex(base, name);
      }
    }
  }

  /** Freshness: the result is not taken, unless the largest index is
      Integer.MAX_VALUE, where `maxIndex + 1` wraps around. */
  lemma GenerateIsFresh(firstName: string, lastName: string, taken: seq<string>)
    requires MaxIndex(Base(firstName, lastName), taken).Some? ==>
             MaxIndex(Base(firstName, lastName), taken).value < INT_MAX
    ensures Generate(firstName, lastName, taken) !in taken
  {
    var base := Base(firstName, lastName);
    var r := Generate(firstName, lastName, taken);
    var m := MaxIndex(base, taken);
    if m.None? {
      assert StartsWith(base, base);
    } else if m.value == -1 {
      assert r == base && SuffixIndex(base, base) == 0;
      NameAboveAllIndicesIsFresh(base, taken, base);
    } else {
      var next := m.value + 1;
      assert r == base + IntToString(next);
      StartsWithConcat(base, IntToString(next));
      ParseIntToString(next);
      assert SuffixIndex(base, r) == next;
      NameAboveAllIndicesIsFresh(base, taken, r);
    }
  }

  /** Without the bound freshness fails: once base + "2147483647" is taken,
      the index wraps to -2147483648, and that name may be taken as well. */
  lemma OverflowBreaksFreshness(firstName: string, lastName: string, taken: seq<string>)
    requires Base(firstName, lastName) + IntToString(INT_MAX) in taken
    requires Base(firstName, lastName) + IntToString(INT_MIN) in taken
    ensures Generate(firstName, lastName, taken) == Base(firstName, lastName) + IntToString(INT_MIN)
    ensures Generate(firstName, lastName, taken) in taken
  {
    var base := Base(firstName, lastName);
    var top := base + IntToString(INT_MAX);
    StartsWithConcat(base, IntToString(INT_MAX));
    ParseIntToString(INT_MAX);
    assert SuffixIndex(base, top) == INT_MAX;
    var i :| 0 <= i < |taken| && taken[i] == top;
    var m := MaxIndex(base, taken);
    assert m.Some? && SuffixIndex(base, taken[i]) <= m.value;
    var j :| 0 <= j < |taken| && StartsWith(taken[j], base) && SuffixIndex(base, taken[j]) == m.value;
    assert m.value == INT_MAX;
    assert Wrap32(INT_MAX + 1) == INT_MIN;
  }

  /** With nothing taken the result is exactly the base. */
  lemma GenerateWhenNothingTaken(firstName: string, lastName: string)
    ensures Generate(firstName, lastName, []) == firstName + "." + lastName
  {
  }

  /** When only the bare base is taken, its empty suffix counts as 0. */
  lemma GenerateWhenBaseTaken(firstName: string, lastName: string)
    ensures var base := Base(firstName, lastName);
            Generate(firstName, lastName, [base]) == base + "1"
  {
    var base := Base(firstName, lastName);
    assert StartsWith(base, base);
    assert MaxIndex(base, [base]) == Some(0);
    assert IntToString(1) == "1";
  }

  /** A taken indexed name is followed by the next index: {base1} gives base2. */
  lemma GenerateIncrementsIndex(firstName: string, lastName: string)
    ensures var base := Base(firstName, lastName);
            Generate(firstName, lastName, [base + "1"]) == base + "2"
  {
    var base := Base(firstName, lastName);
    StartsWithConcat(base, "1");
    assert ParseInt("1") == Some(1);
    assert MaxIndex(base, [base + "1"]) == Some(1);
    assert IntToString(2) == "2";
  }

  /** The suffix is one more than the largest index, not the count:
      {base, base1, base5} gives base6. */
  lemma GenerateTakesMaxPlusOne(firstName: string, lastName: string)
    ensures var base := Base(firstName, lastName);
            Generate(firstName, lastName, [base, base + "1", base + "5"]) == base + "6"
  {
    var base := Base(firstName, lastName);
    var taken := [base, base + "1", base + "5"];
    StartsWithConcat(base, "");
    StartsWithConcat(base, "1");
    StartsWithConcat(base, "5");
    assert base + "" == base;
    assert ParseInt("1") == Some(1) && ParseInt("5") == Some(5);
    assert SuffixIndex(base, taken[2]) == 5;
    assert MaxIndex(base, taken) == Some(5);
    assert IntToString(6) == "6";
  }

  /** A non-numeric suffix counts as 0 and does not fail:
      {baseX, base2} gives base3. */
  lemma GenerateIgnoresNonNumericSuffix(firstName: string, lastName: string)
    ensures var base := Base(firstName, lastName);
            Generate(firstName, lastName, [base + "X", base + "2"]) == base + "3"
  {
    var base := Base(firstName, lastName);
    var taken := [base + "X", base + "2"];
    StartsWithConcat(base, "X");
    StartsWithConcat(base, "2");
    assert ParseInt("X") == None && ParseInt("2") == Some(2);
    assert MaxIndex(base, taken) == Some(2);
    assert IntToString(3) == "3";
  }

  /** A lone base + "-1" parses to -1, which the code cannot tell apart from
      "no match": the bare base is returned. */
  lemma GenerateMinusOneSuffixYieldsBase(firstName: string, lastName: string)
    ensures var base := Base(firstName, lastName);
            Generate(firstName, lastName, [base + "-1"]) == base
  {
    var base := Base(firstName, lastName);
    StartsWithConcat(base, "-1");
    assert "-1"[1..] == "1";
    assert ParseInt("-1") == Some(-1);
    assert MaxIndex(base, [base + "-1"]) == Some(-1);
  }

  /** Names that merely share a prefix with the base are ignored. */
  lemma GenerateIgnoresOtherNames()
    ensures Generate("john", "doe", ["johnnes.doering", "alice.smith", "bob.jones", "johnsson.doelman"])
            == "john.doe"
  {
    var base := Base("john", "doe");
    assert base == "john.doe";
    assert "johnnes.doering"[4] != base[4];
    assert "alice.smith"[0] != base[0];
    assert "bob.jones"[0] != base[0];
    assert "johnsson.doelman"[4] != base[4];
  }

  lemma LargeIndexText()
    ensures NatToString(9999999) == "9999999"
    ensures NatToString(10000000) == "10000000"
  {
    NatToStringAppend(9, 9);
    NatToStringAppend(99, 9);
    NatToStringAppend(999, 9);
    NatToStringAppend(9999, 9);
    NatToStringAppend(99999, 9);
    NatToStringAppend(999999, 9);
    NatToStringAppend(1, 0);
    NatToStringAppend(10, 0);
    NatToStringAppend(100, 0);
    NatToStringAppend(1000, 0);
    NatToStringAppend(10000, 0);
    NatToStringAppend(100000, 0);
    NatToStringAppend(1000000, 0);
  }

  /** Large indices: base9999999 gives base10000000. */
  lemma GenerateLargeIndex(firstName: string, lastName: string)
    ensures var base := Base(firstName, lastName);
            Generate(firstName, lastName, [base + "9999999"]) == base + "10000000"
  {
    var base := Base(firstName, lastName);
    StartsWithConcat(base, "9999999");
    LargeIndexText();
    ParseIntToString(9999999);
    assert MaxIndex(base, [base + "9999999"]) == Some(9999999);
  }
}
