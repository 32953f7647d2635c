/** `name.replace(/\[\d+\]/g, '')`: one left-to-right pass that deletes every
    `[`, one or more decimal digits, `]` group it meets and keeps every other
    character. Matches never overlap: after a match the scan resumes behind it. */
module BracketStrip {
  import opened Text
  import opened JsParseInt

  /** A whole `[` digit+ `]` group. */
  predicate IsGroup(g: string) {
    |g| >= 3 && g[0] == '[' && g[|g| - 1] == ']' && AllDecimal(g[1..|g| - 1])
  }

  /** The length of the regular expression's match at the front of `s`, or 0 when it
      does not match there. `\d+` is greedy and a digit is never `]`, so the match is
      the `[`, the whole digit run behind it, and a `]` that must close the run. */
  function GroupLength(s: string): (n: nat)
    ensures n == 0 || 3 <= n <= |s|
  {
    if s != [] && s[0] == '[' then
      var d := DigitRun(s[1..], 10);
      if d > 0 && 1 + d < |s| && s[1 + d] == ']' then d + 2 else 0
    else 0
  }

  /** A match at the front is a whole group. */
  lemma GroupLengthMatch(s: string)
    ensures GroupLength(s) > 0 ==> IsGroup(s[..GroupLength(s)])
  {
    var n := GroupLength(s);
    if n > 0 {
      var d := n - 2;
      assert d == DigitRun(s[1..], 10);
      var g, r := s[..n][1..n - 1], s[1..][..d];
      DecimalDigits(r);
      forall i | 0 <= i < d ensures IsDecimalDigit(g[i]) {
        assert g[i] == r[i];
      }
    }
  }

  /** The match at the front is exactly the group that starts there, when one does. */
  lemma GroupLengthExact(s: string, k: nat)
    requires 3 <= k <= |s| && IsGroup(s[..k])
    ensures GroupLength(s) == k
  {
    var digits := s[1..k - 1];
    assert digits == s[..k][1..k - 1];
    DecimalDigits(digits);
    assert s[1..] == digits + s[k - 1..];
    assert s[k - 1] == s[..k][k - 1] == ']';
    DigitRunPrefix(digits, s[k - 1..], 10);
  }

  /** `s.replace(/\[\d+\]/g, '')`. */
  function StripGroups(s: string): string
    decreases |s|
  {
    if s == [] then []
    else
      var n := GroupLength(s);
      if n > 0 then StripGroups(s[n..]) else [s[0]] + StripGroups(s[1..])
  }

  /** Some group starts somewhere in `s`. */
  predicate HasGroup(s: string)
    decreases |s|
  {
    s != [] && (GroupLength(s) > 0 || HasGroup(s[1..]))
  }

  /** The characters a group can never contain, kept in order. */
  function Plain(s: string): string
    decreases |s|
  {
    if s == [] then []
    else if s[0] == '[' || s[0] == ']' || IsDecimalDigit(s[0]) then Plain(s[1..])
    else [s[0]] + Plain(s[1..])
  }

  lemma {:induction false} PlainAppend(a: string, b: string)
    ensures Plain(a + b) == Plain(a) + Plain(b)
    decreases |a|
  {
    if a == [] {
      assert a + b == b;
    } else {
      var s := a + b;
      assert s[0] == a[0] && s[1..] == a[1..] + b;
      PlainCons(s);
      PlainCons(a);
      PlainAppend(a[1..], b);
    }
  }

  lemma PlainCons(s: string)
    requires s != []
    ensures Plain(s) == (if s[0] == '[' || s[0] == ']' || IsDecimalDigit(s[0]) then [] else [s[0]]) + Plain(s[1..])
  {
  }

  lemma {:induction false} PlainOfDigits(d: string)
    requires AllDecimal(d)
    ensures Plain(d) == []
    decreases |d|
  {
    if d != [] {
      PlainOfDigits(d[1..]);
    }
  }

  /** Stripping deletes only group characters: every other character survives, in order. */
  lemma {:induction false} StripKeepsPlain(s: string)
    ensures Plain(StripGroups(s)) == Plain(s)
    decreases |s|
  {
    if s != [] {
      var n := GroupLength(s);
      if n > 0 {
        StripKeepsPlain(s[n..]);
        GroupLengthMatch(s);
        var g := s[..n];
        assert s == g + s[n..];
        PlainAppend(g, s[n..]);
        GroupIsNotPlain(g);
      } else {
        StripKeepsPlain(s[1..]);
        var r := [s[0]] + StripGroups(s[1..]);
        assert r[0] == s[0] && r[1..] == StripGroups(s[1..]);
        PlainCons(r);
        PlainCons(s);
      }
    }
  }

  /** A group holds no plain character. */
  lemma GroupIsNotPlain(g: string)
    requires IsGroup(g)
    ensures Plain(g) == []
  {
    var d, c := g[1..|g| - 1], g[|g| - 1];
    assert g[0] == '[' && c == ']' && AllDecimal(d);
    assert g[1..] == d + [c];
    PlainCons(g);
    PlainAppend(d, [c]);
    PlainOfDigits(d);
    ClosingIsNotPlain([c]);
  }

  lemma ClosingIsNotPlain(s: string)
    requires s == "]"
    ensures Plain(s) == []
  {
    PlainCons(s);
    assert s[1..] == [];
  }

  /** Stripping adds no character: the result's characters are a sub-multiset of the name's. */
  lemma {:induction false} StripSubMultiset(s: string)
    ensures multiset(StripGroups(s)) <= multiset(s)
    decreases |s|
  {
    if s != [] {
      var n := GroupLength(s);
      if n > 0 {
        StripSubMultiset(s[n..]);
        assert s == s[..n] + s[n..];
      } else {
        StripSubMultiset(s[1..]);
        assert s == [s[0]] + s[1..];
      }
    }
  }

  /** A name is left as it is exactly when no group occurs in it; otherwise it gets shorter. */
  lemma {:induction false} StripUnchangedIffNoGroup(s: string)
    ensures |StripGroups(s)| <= |s|
    ensures HasGroup(s) ==> |StripGroups(s)| < |s|
    ensures !HasGroup(s) ==> StripGroups(s) == s
    decreases |s|
  {
    if s != [] {
      var n := GroupLength(s);
      if n > 0 {
        StripUnchangedIffNoGroup(s[n..]);
      } else {
        StripUnchangedIffNoGroup(s[1..]);
        assert StripGroups(s) == [s[0]] + StripGroups(s[1..]);
        assert [s[0]] + s[1..] == s;
      }
    }
  }

  /** A prefix without `[` passes through untouched, whatever follows it. */
  lemma {:induction false} StripAfterPlainPrefix(a: string, b: string)
    requires '[' !in a
    ensures StripGroups(a + b) == a + StripGroups(b)
    decreases |a|
  {
    if a == [] {
      assert a + b == b;
    } else {
      var s := a + b;
      assert s[0] == a[0] && s[1..] == a[1..] + b;
      KeptWhenNotBracket(s);
      StripAfterPlainPrefix(a[1..], b);
      assert a == [a[0]] + a[1..];
    }
  }

  /** A character other than `[` never starts a match, so it is kept. */
  lemma KeptWhenNotBracket(s: string)
    requires s != [] && s[0] != '['
    ensures StripGroups(s) == [s[0]] + StripGroups(s[1..])
  {
    assert GroupLength(s) == 0;
  }

  /** A group at the front is deleted as a whole. */
  lemma StripLeadingGroup(digits: string, b: string)
    requires digits != [] && AllDecimal(digits)
    ensures StripGroups("[" + digits + "]" + b) == StripGroups(b)
  {
    var s := "[" + digits + "]" + b;
    DecimalDigits(digits);
    assert s[1..] == digits + ("]" + b);
    DigitRunPrefix(digits, "]" + b, 10);
    assert s[1 + |digits|] == ']';
    assert s[|digits| + 2..] == b;
  }

  /** The upload convention this undoes: a `[n]` counter after the stem of a name
      whose stem has no `[` is removed, and nothing else changes. */
  lemma CounterRemoved(stem: string, digits: string, ext: string)
    requires '[' !in stem && '[' !in ext
    requires digits != [] && AllDecimal(digits)
    ensures StripGroups(stem + "[" + digits + "]" + ext) == stem + ext
  {
    assert stem + "[" + digits + "]" + ext == stem + ("[" + digits + "]" + ext);
    StripAfterPlainPrefix(stem, "[" + digits + "]" + ext);
    StripLeadingGroup(digits, ext);
    StripAfterPlainPrefix(ext, []);
    assert ext + [] == ext;
  }

  /** One pass is not idempotent: deleting an inner group can close a new one... */
  lemma OnePassLeavesGroup(s: string)
    requires s == "a[[1]2]"
    ensures StripGroups(s) == "a[2]"
  {
    var t := s[1..];
    assert t == "[[1]2]";
    InnerGroupStripped(t);
    StripAfterPlainPrefix("a", t);
    assert "a" + t == s;
  }

  lemma InnerGroupStripped(t: string)
    requires t == "[[1]2]"
    ensures StripGroups(t) == "[2]"
  {
    var u := t[1..];
    KeptBeforeBracket(t);
    assert u[..3] == "[1]" && AllDecimal(u[..3][1..2]);
    GroupLengthExact(u, 3);
    var rest := u[3..];
    assert rest == "2]";
    KeptWhenNotBracket(rest);
    KeptWhenNotBracket(rest[1..]);
    assert rest[1..][1..] == [];
  }

  /** A character followed by `[` is never the start of a match, so it is kept. */
  lemma KeptBeforeBracket(s: string)
    requires |s| >= 2 && s[1] == '['
    ensures StripGroups(s) == [s[0]] + StripGroups(s[1..])
  {
    assert DigitValue(s[1]) >= 10;
    assert GroupLength(s) == 0;
  }

  /** ...which a second pass then deletes. */
  lemma SecondPassRemovesIt(s: string)
    requires s == "a[2]"
    ensures StripGroups(s) == "a"
  {
    var g := s[1..];
    assert g == "[" + "2" + "]" + [];
    StripAfterPlainPrefix("a", g);
    StripLeadingGroup("2", []);
    assert "a" + g == s;
  }
}
