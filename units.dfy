/**
 * Business-unit names: the patterns `^(minute)+s?$`, `^(hour)+s?$` and
 * `^(day)+s?$` the unit dispatchers test, in that order.
 */
module Units {
  import opened Wrappers
  import opened Calendar

  /** The unit a dispatcher routes to. */
  datatype BusinessUnit = Minutes | Hours | Days

  /** `^(w)+$`: one or more copies of `w` and nothing else. */
  predicate Repeated(s: string, w: string)
    requires |w| > 0
    decreases |s|
  {
    s == w || (|w| < |s| && s[..|w|] == w && Repeated(s[|w|..], w))
  }

  /** `^(w)+s?$`: copies of `w`, optionally followed by one `s`. */
  predicate MatchesUnit(s: string, w: string)
    requires |w| > 0
  {
    Repeated(s, w) || (|s| > 0 && s[|s| - 1] == 's' && Repeated(s[..|s| - 1], w))
  }

  /** `k` copies of `w`. */
  function Copies(w: string, k: nat): string {
    if k == 0 then "" else w + Copies(w, k - 1)
  }

  /** A spelling the pattern for `w` describes: `k` copies of `w`, with or without a plural `s`. */
  function Spelling(w: string, k: nat, plural: bool): string {
    Copies(w, k) + (if plural then "s" else "")
  }

  /** One or more copies of `w` are exactly the strings `^(w)+$` accepts. */
  lemma {:induction false} RepeatedCopies(s: string, w: string)
    requires |w| > 0
    ensures Repeated(s, w) <==> exists k: nat :: 1 <= k && s == Copies(w, k)
    decreases |s|
  {
    if Repeated(s, w) {
      if s == w {
        assert s == Copies(w, 1);
      } else {
        RepeatedCopies(s[|w|..], w);
        var k: nat :| 1 <= k && s[|w|..] == Copies(w, k);
        assert s == s[..|w|] + s[|w|..];
        assert s == Copies(w, k + 1);
      }
    }
    if exists k: nat :: 1 <= k && s == Copies(w, k) {
      var k: nat :| 1 <= k && s == Copies(w, k);
      if k > 1 {
        var rest := Copies(w, k - 1);
        CopiesLast(w, k - 1);
        assert 1 <= k - 1 && rest == Copies(w, k - 1);
        assert s == w + rest;
        assert s[..|w|] == w && s[|w|..] == rest;
        RepeatedCopies(rest, w);
      } else {
        assert s == w + "";
      }
    }
  }

  /** Copies of a word that does not end in `s` never do. */
  lemma {:induction false} CopiesLast(w: string, k: nat)
    requires |w| > 0 && 1 <= k
    ensures |Copies(w, k)| >= |w| && Copies(w, k)[|Copies(w, k)| - 1] == w[|w| - 1]
  {
    if k > 1 {
      CopiesLast(w, k - 1);
    } else {
      assert Copies(w, 1) == w + "";
    }
  }

  /**
   * For a unit word that does not end in `s`, `^(w)+s?$` accepts exactly the
   * spellings: one or more copies of `w`, then an optional `s`.
   */
  lemma MatchesUnitSpelling(s: string, w: string)
    requires |w| > 0 && w[|w| - 1] != 's'
    ensures MatchesUnit(s, w) <==> exists k: nat, plural: bool :: 1 <= k && s == Spelling(w, k, plural)
  {
    RepeatedCopies(s, w);
    if |s| > 0 {
      RepeatedCopies(s[..|s| - 1], w);
    }
    if MatchesUnit(s, w) {
      if Repeated(s, w) {
        var k: nat :| 1 <= k && s == Copies(w, k);
        assert s == Spelling(w, k, false);
      } else {
        var k: nat :| 1 <= k && s[..|s| - 1] == Copies(w, k);
        assert s == s[..|s| - 1] + "s";
        assert s == Spelling(w, k, true);
      }
    }
    if exists k: nat, plural: bool :: 1 <= k && s == Spelling(w, k, plural) {
      var k: nat, plural: bool :| 1 <= k && s == Spelling(w, k, plural);
      CopiesLast(w, k);
      if plural {
        assert s[..|s| - 1] == Copies(w, k);
      } else {
        assert s == Copies(w, k);
      }
    }
  }

  /**
   * The dispatch of `addBusinessTime`, `subtractBusinessTime` and
   * `businessTimeDiff`: minutes, then hours, then days, else
   * `Error('Invalid Business Time Unit')`.
   */
  function UnitOf(s: string): (r: Result<BusinessUnit, Error>)
    ensures r.Err? ==> r.error == InvalidBusinessTimeUnit
    ensures r.Err? <==> !MatchesUnit(s, "minute") && !MatchesUnit(s, "hour") && !MatchesUnit(s, "day")
  {
    if MatchesUnit(s, "minute") then Ok(Minutes)
    else if MatchesUnit(s, "hour") then Ok(Hours)
    else if MatchesUnit(s, "day") then Ok(Days)
    else Err(InvalidBusinessTimeUnit)
  }

  /** The first letter of any copy-run of `w` is the first letter of `w`. */
  lemma CopiesFirst(w: string, k: nat, plural: bool)
    requires |w| > 0 && 1 <= k
    ensures |Spelling(w, k, plural)| > 0 && Spelling(w, k, plural)[0] == w[0]
  {
    assert Copies(w, k) == w + Copies(w, k - 1);
  }

  /**
   * The unit a spelling names: every spelling of `minute`, `hour` or `day` —
   * singular, plural or repeated, like `minuteminutes` — goes to that unit.
   */
  lemma UnitOfSpelling(k: nat, plural: bool)
    requires 1 <= k
    ensures UnitOf(Spelling("minute", k, plural)) == Ok(Minutes)
    ensures UnitOf(Spelling("hour", k, plural)) == Ok(Hours)
    ensures UnitOf(Spelling("day", k, plural)) == Ok(Days)
  {
    MatchesUnitSpelling(Spelling("minute", k, plural), "minute");
    MatchesUnitSpelling(Spelling("hour", k, plural), "hour");
    MatchesUnitSpelling(Spelling("day", k, plural), "day");
    CopiesFirst("hour", k, plural);
    CopiesFirst("day", k, plural);
    var h := Spelling("hour", k, plural);
    var d := Spelling("day", k, plural);
    MatchesUnitSpelling(h, "minute");
    MatchesUnitSpelling(d, "minute");
    MatchesUnitSpelling(d, "hour");
  }

  /** The names of the `BusinessUnitType` declaration all dispatch, and a name outside the patterns is refused. */
  lemma DeclaredUnitNames()
    ensures UnitOf("minute") == Ok(Minutes) && UnitOf("minutes") == Ok(Minutes)
    ensures UnitOf("hour") == Ok(Hours) && UnitOf("hours") == Ok(Hours)
    ensures UnitOf("day") == Ok(Days) && UnitOf("days") == Ok(Days)
    ensures UnitOf("week") == Err(InvalidBusinessTimeUnit)
  {
    assert Spelling("minute", 1, false) == "minute";
    assert Spelling("minute", 1, true) == "minutes";
    assert Spelling("hour", 1, false) == "hour";
    assert Spelling("hour", 1, true) == "hours";
    assert Spelling("day", 1, false) == "day";
    assert Spelling("day", 1, true) == "days";
    UnitOfSpelling(1, false);
    UnitOfSpelling(1, true);
    assert !Repeated("week", "minute");
    assert !Repeated("wee", "minute");
    assert !Repeated("week", "hour") by {
      assert "week"[..4] != "hour";
    }
    assert !Repeated("week", "day") by {
      assert "week"[..3] != "day";
    }
  }
}
