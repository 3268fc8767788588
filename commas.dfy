/**
 * The two comma operations of the converter: removing every ',' from typed
 * text (`replace(/,/g, '')` in both input handlers) and the thousands grouping
 * the en-CA number formatter applies to an integer part.
 */
module Commas {
  /** `s` with every ',' removed; the other characters keep their order. */
  function StripCommas(s: string): (r: string)
    ensures |r| <= |s|
  {
    if s == [] then []
    else (if s[0] == ',' then [] else [s[0]]) + StripCommas(s[1..])
  }

  /** Inserts ',' before every third character counted from the right. */
  function Group(s: string): (r: string)
    decreases |s|
  {
    if |s| <= 3 then s else Group(s[..|s| - 3]) + "," + s[|s| - 3..]
  }

  /** Stripping distributes over concatenation, so it acts character by character. */
  lemma {:induction false} StripCommasAppend(a: string, b: string)
    ensures StripCommas(a + b) == StripCommas(a) + StripCommas(b)
    decreases |a|
  {
    if a == [] {
      assert a + b == b;
    } else {
      assert (a + b)[1..] == a[1..] + b;
      StripCommasAppend(a[1..], b);
    }
  }

  lemma StripCommasAppend3(a: string, b: string, c: string)
    ensures StripCommas(a + b + c) == StripCommas(a) + StripCommas(b) + StripCommas(c)
  {
    StripCommasAppend(a + b, c);
    StripCommasAppend(a, b);
  }

  /** Text without commas is left as it is. */
  lemma {:induction false} StripCommasIdentity(s: string)
    requires ',' !in s
    ensures StripCommas(s) == s
  {
    if s != [] {
      StripCommasIdentity(s[1..]);
    }
  }

  /** No comma survives stripping. */
  lemma {:induction false} StripCommasRemovesAll(s: string)
    ensures ',' !in StripCommas(s)
  {
    if s != [] {
      StripCommasRemovesAll(s[1..]);
    }
  }

  lemma StripCommasIdempotent(s: string)
    ensures StripCommas(StripCommas(s)) == StripCommas(s)
  {
    StripCommasRemovesAll(s);
    StripCommasIdentity(StripCommas(s));
  }

  /** Exactly the commas are removed: every other character keeps its count. */
  lemma {:induction false} StripCommasCounts(s: string)
    ensures multiset(StripCommas(s)) == multiset(s)[',' := 0]
  {
    if s != [] {
      StripCommasCounts(s[1..]);
      assert s == [s[0]] + s[1..];
      assert multiset(s) == multiset([s[0]]) + multiset(s[1..]);
    }
  }

  lemma NoCommaSlices(s: string, k: nat)
    requires ',' !in s && k <= |s|
    ensures ',' !in s[..k] && ',' !in s[k..]
  {
    assert forall c :: c in s[..k] ==> c in s;
    assert forall c :: c in s[k..] ==> c in s;
  }

  /** Grouping is undone by stripping. */
  lemma {:induction false} StripGroup(s: string)
    requires ',' !in s
    ensures StripCommas(Group(s)) == s
    decreases |s|
  {
    if |s| <= 3 {
      StripCommasIdentity(s);
    } else {
      var hi, lo := s[..|s| - 3], s[|s| - 3..];
      NoCommaSlices(s, |s| - 3);
      StripGroup(hi);
      StripAroundComma(Group(hi), lo, hi);
      assert hi + lo == s;
    }
  }

  lemma StripAroundComma(g: string, lo: string, hi: string)
    requires StripCommas(g) == hi && ',' !in lo
    ensures StripCommas(g + "," + lo) == hi + lo
  {
    StripCommasAppend3(g, ",", lo);
    StripCommasIdentity(lo);
    StripOneComma();
    DropEmptyMiddle(StripCommas(g + "," + lo), hi, StripCommas(","), lo);
  }

  lemma StripOneComma()
    ensures StripCommas(",") == []
  {
    assert ","[1..] == [];
  }

  /** Drops an empty middle part of a concatenation; a separate step so the solver does not unfold its parts. */
  lemma DropEmptyMiddle(t: string, a: string, e: string, b: string)
    requires t == a + e + b && e == []
    ensures t == a + b
  {
  }

  /**
   * Grouping in threes from the right: a non-empty comma-free string of length
   * n gains (n - 1) / 3 commas, one at every fourth position from the end.
   */
  lemma {:induction false} GroupCommaPositions(s: string)
    requires ',' !in s
    ensures |s| > 0 ==> |Group(s)| == |s| + (|s| - 1) / 3
    ensures CommasEveryFourth(Group(s))
    decreases |s|
  {
    if |s| <= 3 {
      forall i | 0 <= i < |s| ensures s[i] != ',' {
        assert s[i] in s;
      }
    } else {
      var hi, lo := s[..|s| - 3], s[|s| - 3..];
      NoCommaSlices(s, |s| - 3);
      GroupCommaPositions(hi);
      JoinCommaPositions(Group(hi), lo);
    }
  }

  /** Position i holds a comma exactly when the distance from i to the end is a multiple of four. */
  predicate CommasEveryFourth(r: string) {
    forall i :: 0 <= i < |r| ==> (r[i] == ',' <==> (|r| - i) % 4 == 0)
  }

  lemma JoinCommaPositions(g: string, lo: string)
    requires |lo| == 3 && ',' !in lo && CommasEveryFourth(g)
    ensures CommasEveryFourth(g + "," + lo)
  {
    var r := g + "," + lo;
    forall i | 0 <= i < |r| ensures r[i] == ',' <==> (|r| - i) % 4 == 0 {
      if i < |g| {
        assert r[i] == g[i];
        assert (|r| - i) % 4 == (|g| - i) % 4;
      } else if i > |g| {
        assert r[i] == lo[i - |g| - 1];
        assert r[i] in lo;
      }
    }
  }

  /** Grouping adds nothing but commas and keeps the first character in front. */
  lemma {:induction false} GroupChars(s: string)
    ensures |s| > 0 ==> |Group(s)| > 0 && Group(s)[0] == s[0]
    ensures forall i :: 0 <= i < |Group(s)| ==> Group(s)[i] == ',' || Group(s)[i] in s
    decreases |s|
  {
    if |s| > 3 {
      var hi, lo := s[..|s| - 3], s[|s| - 3..];
      GroupChars(hi);
      var g := Group(hi);
      var r := Group(s);
      assert r == g + "," + lo;
      forall i | 0 <= i < |r| ensures r[i] == ',' || r[i] in s {
        if i < |g| {
          assert r[i] == g[i];
          assert r[i] == ',' || r[i] in hi;
          assert forall c :: c in hi ==> c in s;
        } else if i > |g| {
          assert r[i] == lo[i - |g| - 1];
          assert forall c :: c in lo ==> c in s;
        }
      }
    }
  }
}
