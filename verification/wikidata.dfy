/** Normalising the `td` column of the Wikidata query result: the entity URI
    prefix is removed with a regular-expression replace, leaving the Q-id. */
module Wikidata {
  import opened Records

  /** The pattern handed to `str.replace(..., regex=True)`. As a regular
      expression each `.` in it matches any character except a newline. */
  const EntityPattern: string := "http://www.wikidata.org/entity/"

  predicate CharMatches(p: char, c: char)
  {
    if p == '.' then c != '\n' else p == c
  }

  /** The pattern matches the text of `s` starting at position `i`. */
  predicate MatchesAt(s: string, i: nat)
  {
    i + |EntityPattern| <= |s| &&
    forall k :: 0 <= k < |EntityPattern| ==> CharMatches(EntityPattern[k], s[i + k])
  }

  predicate MatchFree(s: string)
  {
    forall i: nat :: i <= |s| ==> !MatchesAt(s, i)
  }

  /** `re.sub(EntityPattern, '', s)`: scanning left to right, every
      non-overlapping match is removed. */
  function StripEntityPrefix(s: string): (r: string)
    ensures |r| <= |s|
    ensures MatchFree(s) ==> r == s
    ensures MatchesAt(s, 0) ==> |r| <= |s| - |EntityPattern|
    decreases |s|
  {
    if |s| == 0 then s
    else if MatchesAt(s, 0) then StripEntityPrefix(s[|EntityPattern|..])
    else
      assert MatchFree(s) ==> MatchFree(s[1..]) by {
        if MatchFree(s) {
          forall i: nat | i <= |s[1..]|
            ensures !MatchesAt(s[1..], i)
          {
            assert !MatchesAt(s, i + 1);
            if MatchesAt(s[1..], i) {
              forall k | 0 <= k < |EntityPattern|
                ensures CharMatches(EntityPattern[k], s[i + 1 + k])
              {
                assert s[1..][i + k] == s[i + 1 + k];
              }
            }
          }
        }
      }
      [s[0]] + StripEntityPrefix(s[1..])
  }

  lemma PatternMatchesItself()
    ensures MatchesAt(EntityPattern, 0)
  {
  }

  /** A string too short to hold the pattern contains no match. */
  lemma ShortIsMatchFree(s: string)
    requires |s| < |EntityPattern|
    ensures MatchFree(s)
  {
  }

  /** A value that starts with the pattern loses exactly that occurrence:
      what remains is stripped as if the leading match had never been there. */
  lemma {:induction false} StripLeadingPattern(t: string)
    ensures StripEntityPrefix(EntityPattern + t) == StripEntityPrefix(t)
  {
    var s := EntityPattern + t;
    assert MatchesAt(s, 0) by {
      forall k | 0 <= k < |EntityPattern|
        ensures CharMatches(EntityPattern[k], s[k])
      {
        assert s[k] == EntityPattern[k];
      }
    }
    assert s[|EntityPattern|..] == t;
  }

  /** A match at the scan position is removed, and the scan resumes right after it. */
  lemma StripAtMatch(s: string)
    requires MatchesAt(s, 0)
    ensures StripEntityPrefix(s) == StripEntityPrefix(s[|EntityPattern|..])
  {
  }

  /** A character where no match starts is kept, and the scan moves one on. */
  lemma StripKeepsChar(c: char, t: string)
    requires !MatchesAt([c] + t, 0)
    ensures StripEntityPrefix([c] + t) == [c] + StripEntityPrefix(t)
  {
    assert ([c] + t)[1..] == t;
  }

  /** Positions shift by one when a character is put in front. */
  lemma MatchShift(c: char, t: string, i: nat)
    ensures MatchesAt([c] + t, i + 1) <==> MatchesAt(t, i)
  {
    var s := [c] + t;
    if i + |EntityPattern| <= |t| {
      forall j | i + 1 <= j < i + 1 + |EntityPattern|
        ensures s[j] == t[j - 1]
      {
      }
    }
  }

  /** A match anywhere is removed together with nothing else: text before
      it in which no match starts is kept as it is, and the rest after the
      match is stripped on its own. So `re.sub` replaces every match, not only
      a leading one. */
  lemma {:induction false} StripAfterStretch(u: string, t: string)
    requires forall i: nat :: i < |u| ==> !MatchesAt(u + EntityPattern + t, i)
    ensures StripEntityPrefix(u + EntityPattern + t) == u + StripEntityPrefix(t)
    decreases |u|
  {
    if |u| == 0 {
      assert u + EntityPattern + t == EntityPattern + t;
      StripLeadingPattern(t);
    } else {
      var rest := u[1..] + EntityPattern + t;
      assert u + EntityPattern + t == [u[0]] + rest;
      forall i: nat | i < |u[1..]|
        ensures !MatchesAt(rest, i)
      {
        MatchShift(u[0], rest, i);
      }
      StripAfterStretch(u[1..], t);
      StripKeepsChar(u[0], rest);
      var x := StripEntityPrefix(t);
      assert StripEntityPrefix(u + EntityPattern + t) == [u[0]] + (u[1..] + x);
      ConsAppend(u, x);
    }
  }

  lemma ConsAppend(u: string, x: string)
    requires |u| > 0
    ensures [u[0]] + (u[1..] + x) == u + x
  {
    assert [u[0]] + u[1..] == u;
  }

  /** An id with one character in front of the entity URI: the URI is
      removed from the middle, the character kept. */
  lemma PrefixedEntity()
    ensures StripEntityPrefix("x" + EntityPattern + "Q1") == "xQ1"
  {
    var s := "x" + EntityPattern + "Q1";
    forall i: nat | i < |"x"|
      ensures !MatchesAt(s, i)
    {
      assert i == 0 && s[0] == 'x' && EntityPattern[0] == 'h';
    }
    StripAfterStretch("x", "Q1");
    ShortIsMatchFree("Q1");
  }

  /** An entity URI whose id part holds no match strips to exactly the id. */
  lemma StripEntityUri(id: string)
    requires MatchFree(id)
    ensures StripEntityPrefix(EntityPattern + id) == id
  {
    StripLeadingPattern(id);
  }

  lemma EntityQ12345()
    ensures StripEntityPrefix("http://www.wikidata.org/entity/Q12345") == "Q12345"
  {
    ShortIsMatchFree("Q12345");
    StripEntityUri("Q12345");
    SpelledOut();
  }

  lemma SpelledOut()
    ensures EntityPattern + "Q12345" == "http://www.wikidata.org/entity/Q12345"
  {
  }

  /** The regex treats `.` as a wildcard, so a look-alike prefix is removed too. */
  lemma WildcardLookAlike()
    ensures StripEntityPrefix("http://wwwXwikidata.org/entity/Q1") == "Q1"
  {
    var s := "http://wwwXwikidata.org/entity/Q1";
    assert MatchesAt(s, 0) by {
      forall k | 0 <= k < |EntityPattern|
        ensures CharMatches(EntityPattern[k], s[k])
      {
      }
    }
    assert s[|EntityPattern|..] == "Q1";
    ShortIsMatchFree("Q1");
  }

  /** `df.td = df.td.str.replace(...)`: the column is rewritten, nothing else. */
  function StripIds(rows: seq<WikidataRow>): (r: seq<WikidataRow>)
    ensures |r| == |rows|
    ensures forall i :: 0 <= i < |rows| ==>
      r[i] == rows[i].(td := StripEntityPrefix(rows[i].td))
  {
    seq(|rows|, i requires 0 <= i < |rows| => rows[i].(td := StripEntityPrefix(rows[i].td)))
  }
}
