/**
 The string operations the status publisher relies on: ASCII lower-casing
 (the `ToLower` in front of the status switch), decimal rendering of a
 non-negative count (`int.ToString()`), and ordinal replace-all
 (`string.Replace("{count}", …)`).
 */
module Text {

  /** The placeholder that templates use for the player count. */
  const Placeholder: string := "{count}"

  predicate IsUpper(c: char) {
    'A' <= c <= 'Z'
  }

  predicate IsDigit(c: char) {
    '0' <= c <= '9'
  }

  predicate AllDigits(s: string) {
    forall i :: 0 <= i < |s| ==> IsDigit(s[i])
  }

  function LowerChar(c: char): char {
    if IsUpper(c) then (c as int - 'A' as int + 'a' as int) as char else c
  }

  /** ASCII lower-casing: upper-case letters become lower-case, every other
      character is kept as it is. */
  function ToLower(s: string): (r: string)
    ensures |r| == |s|
    ensures forall i :: 0 <= i < |r| ==> !IsUpper(r[i])
    ensures forall i :: 0 <= i < |s| && !IsUpper(s[i]) ==> r[i] == s[i]
    ensures forall i :: 0 <= i < |s| && IsUpper(s[i]) ==> r[i] as int == s[i] as int + 32
  {
    seq(|s|, i requires 0 <= i < |s| => LowerChar(s[i]))
  }

  /** Lower-casing a string that has no upper-case letters changes nothing,
      so in particular lower-casing is idempotent. */
  lemma ToLowerFixesLower(s: string)
    requires forall i :: 0 <= i < |s| ==> !IsUpper(s[i])
    ensures ToLower(s) == s
  {
  }

  lemma ToLowerIdempotent(s: string)
    ensures ToLower(ToLower(s)) == ToLower(s)
  {
    ToLowerFixesLower(ToLower(s));
  }

  /** Two strings that agree up to ASCII case. */
  predicate EqualIgnoringCase(s: string, t: string) {
    |s| == |t| && forall i :: 0 <= i < |s| ==> LowerChar(s[i]) == LowerChar(t[i])
  }

  lemma EqualIgnoringCaseLower(s: string, t: string)
    ensures EqualIgnoringCase(s, t) <==> ToLower(s) == ToLower(t)
  {
    if ToLower(s) == ToLower(t) {
      forall i | 0 <= i < |s|
        ensures LowerChar(s[i]) == LowerChar(t[i])
      {
        assert ToLower(s)[i] == ToLower(t)[i];
      }
    }
  }

  function DigitChar(d: nat): (c: char)
    requires d < 10
    ensures IsDigit(c)
    ensures c as int - '0' as int == d
  {
    ('0' as int + d) as char
  }

  /** The value of a string of decimal digits, most significant first. */
  function DigitsValue(s: string): nat
    requires AllDigits(s)
    decreases |s|
  {
    if |s| == 0 then 0
    else DigitsValue(s[..|s| - 1]) * 10 + (s[|s| - 1] as int - '0' as int)
  }

  /** Decimal rendering of a non-negative integer, as `int.ToString()` does
      for the values a player count can take: only digits, never empty, and
      no leading zero except for zero itself. */
  function Decimal(n: nat): (r: string)
    ensures |r| > 0
    ensures AllDigits(r)
    ensures r[0] == '0' <==> n == 0
    ensures n == 0 ==> |r| == 1
    decreases n
  {
    if n < 10 then [DigitChar(n)] else Decimal(n / 10) + [DigitChar(n % 10)]
  }

  /** Reading the rendering back gives the number: `Decimal` is injective and
      `DigitsValue` is its inverse. */
  lemma {:induction false} DecimalRoundTrip(n: nat)
    ensures DigitsValue(Decimal(n)) == n
    decreases n
  {
    if n >= 10 {
      var r := Decimal(n);
      assert r[..|r| - 1] == Decimal(n / 10);
      DecimalRoundTrip(n / 10);
    }
  }

  lemma DecimalInjective(m: nat, n: nat)
    ensures Decimal(m) == Decimal(n) <==> m == n
  {
    DecimalRoundTrip(m);
    DecimalRoundTrip(n);
  }

  /** `pat` occurs in `s` starting at index `i`. */
  predicate OccursAt(s: string, pat: string, i: int) {
    0 <= i && i + |pat| <= |s| && s[i..i + |pat|] == pat
  }

  predicate Contains(s: string, pat: string) {
    exists i :: 0 <= i <= |s| && OccursAt(s, pat, i)
  }

  /** Ordinal replace-all: scanning left to right, every occurrence of `pat`
      that does not overlap an earlier replaced one becomes `rep`. */
  function ReplaceAll(s: string, pat: string, rep: string): (r: string)
    requires |pat| > 0
    // A replacement as long as the pattern keeps the length.
    ensures |rep| == |pat| ==> |r| == |s|
    decreases |s|
  {
    if |s| < |pat| then s
    else if s[..|pat|] == pat then rep + ReplaceAll(s[|pat|..], pat, rep)
    else [s[0]] + ReplaceAll(s[1..], pat, rep)
  }

  /** A string with no occurrence of the pattern is returned unchanged. */
  lemma {:induction false} ReplaceAbsent(s: string, pat: string, rep: string)
    requires |pat| > 0
    requires !Contains(s, pat)
    ensures ReplaceAll(s, pat, rep) == s
    decreases |s|
  {
    if |s| >= |pat| {
      assert !OccursAt(s, pat, 0);
      assert s[..|pat|] == s[0..0 + |pat|];
      forall i | OccursAt(s[1..], pat, i)
        ensures false
      {
        assert s[1..][i..i + |pat|] == s[i + 1..i + 1 + |pat|];
        assert OccursAt(s, pat, i + 1);
      }
      ReplaceAbsent(s[1..], pat, rep);
      assert [s[0]] + s[1..] == s;
    }
  }

  /** A prefix of the result either holds a character of `rep` or was
      copied unchanged from the input: a replacement always emits `rep`. */
  lemma {:induction false} ReplacePrefixCopied(t: string, pat: string, rep: string, k: nat)
    requires |pat| > 0 && |rep| > 0
    requires k <= |ReplaceAll(t, pat, rep)|
    ensures || (exists i :: 0 <= i < k && ReplaceAll(t, pat, rep)[i] in rep)
            || (k <= |t| && ReplaceAll(t, pat, rep)[..k] == t[..k])
    decreases |t|
  {
    var r := ReplaceAll(t, pat, rep);
    if k == 0 || |t| < |pat| {
    } else if t[..|pat|] == pat {
      assert r[0] == rep[0] && rep[0] in rep;
    } else {
      var r' := ReplaceAll(t[1..], pat, rep);
      assert r == [t[0]] + r';
      ReplacePrefixCopied(t[1..], pat, rep, k - 1);
      if exists i :: 0 <= i < k - 1 && r'[i] in rep {
        var i :| 0 <= i < k - 1 && r'[i] in rep;
        assert r[i + 1] == r'[i];
      } else {
        assert r[..k] == [t[0]] + r'[..k - 1];
        assert t[..k] == [t[0]] + t[1..][..k - 1];
      }
    }
  }

  /** Putting characters outside the pattern in front of a string creates
      no occurrence of the pattern. */
  lemma NoOccurrenceAfterForeign(rep: string, t: string, pat: string)
    requires |pat| > 0
    requires forall c :: c in rep ==> c !in pat
    requires !Contains(t, pat)
    ensures !Contains(rep + t, pat)
  {
    var r := rep + t;
    forall i | 0 <= i <= |r|
      ensures !OccursAt(r, pat, i)
    {
      if i < |rep| && i + |pat| <= |r| {
        assert r[i] == rep[i] && rep[i] in rep;
        assert pat[0] in pat;
        assert r[i..i + |pat|][0] != pat[0];
      } else if i >= |rep| && i + |pat| <= |r| {
        assert t[i - |rep|..i - |rep| + |pat|] == r[i..i + |pat|];
        assert !OccursAt(t, pat, i - |rep|);
      }
    }
  }

  /** Putting one character in front of a string creates an occurrence of the
      pattern only at the front. */
  lemma NoOccurrenceAfterChar(c: char, t: string, pat: string)
    requires |pat| > 0
    requires !Contains(t, pat)
    requires !OccursAt([c] + t, pat, 0)
    ensures !Contains([c] + t, pat)
  {
    var r := [c] + t;
    forall i | 0 < i <= |r| && i + |pat| <= |r|
      ensures !OccursAt(r, pat, i)
    {
      assert t[i - 1..i - 1 + |pat|] == r[i..i + |pat|];
      assert !OccursAt(t, pat, i - 1);
    }
  }

  /** When the replacement is non-empty and shares no character with the
      pattern, no occurrence of the pattern survives the replacement. */
  lemma {:induction false} ReplaceLeavesNone(s: string, pat: string, rep: string)
    requires |pat| > 0 && |rep| > 0
    requires forall c :: c in rep ==> c !in pat
    ensures !Contains(ReplaceAll(s, pat, rep), pat)
    decreases |s|
  {
    if |s| < |pat| {
      assert ReplaceAll(s, pat, rep) == s;
      assert forall i :: 0 <= i <= |s| ==> !OccursAt(s, pat, i);
    } else if s[..|pat|] == pat {
      ReplaceLeavesNone(s[|pat|..], pat, rep);
      NoOccurrenceAfterForeign(rep, ReplaceAll(s[|pat|..], pat, rep), pat);
    } else {
      var r' := ReplaceAll(s[1..], pat, rep);
      var r := [s[0]] + r';
      assert ReplaceAll(s, pat, rep) == r;
      ReplaceLeavesNone(s[1..], pat, rep);
      if OccursAt(r, pat, 0) {
        var k := |pat| - 1;
        forall j | 0 <= j < k
          ensures r'[j] !in rep
        {
          assert r'[j] == r[j + 1] == pat[j + 1];
          assert pat[j + 1] in pat;
        }
        ReplacePrefixCopied(s[1..], pat, rep, k);
      }
      NoOccurrenceAfterChar(s[0], r', pat);
    }
  }

  /** Under the same conditions the result equals the input exactly when the
      input has no occurrence of the pattern. */
  lemma ReplaceIsIdentityIff(s: string, pat: string, rep: string)
    requires |pat| > 0 && |rep| > 0
    requires forall c :: c in rep ==> c !in pat
    ensures ReplaceAll(s, pat, rep) == s <==> !Contains(s, pat)
  {
    if !Contains(s, pat) {
      ReplaceAbsent(s, pat, rep);
    } else {
      ReplaceLeavesNone(s, pat, rep);
    }
  }

  /** A prefix none of whose characters can start the pattern is copied
      through, and replacement continues on the rest. */
  lemma {:induction false} ReplaceSkipsPrefix(a: string, rest: string, pat: string, rep: string)
    requires |pat| > 0
    requires forall i :: 0 <= i < |a| ==> a[i] != pat[0]
    ensures ReplaceAll(a + rest, pat, rep) == a + ReplaceAll(rest, pat, rep)
    decreases |a|
  {
    if |a| > 0 {
      var s := a + rest;
      if |s| < |pat| {
        assert ReplaceAll(rest, pat, rep) == rest;
      } else {
        assert s[..|pat|][0] == a[0] != pat[0];
        assert s[..|pat|] != pat;
        assert ReplaceAll(s, pat, rep) == [s[0]] + ReplaceAll(s[1..], pat, rep);
        assert s[1..] == a[1..] + rest;
        ReplaceSkipsPrefix(a[1..], rest, pat, rep);
        assert ReplaceAll(s, pat, rep) == [a[0]] + (a[1..] + ReplaceAll(rest, pat, rep));
        assert a == [a[0]] + a[1..];
      }
    } else {
      assert a + rest == rest;
    }
  }

  /** The parts joined with `sep` between consecutive parts. */
  function JoinWith(parts: seq<string>, sep: string): string
    decreases |parts|
  {
    if |parts| == 0 then ""
    else if |parts| == 1 then parts[0]
    else parts[0] + sep + JoinWith(parts[1..], sep)
  }

  /** No part holds the character `c`: with `c` the first character of a
      pattern, no occurrence can start inside a part. Compare `FreeParts`,
      which only excludes whole occurrences. */
  predicate PartsAvoid(parts: seq<string>, c: char) {
    forall i, j :: 0 <= i < |parts| && 0 <= j < |parts[i]| ==> parts[i][j] != c
  }

  /** An occurrence at the front is replaced and scanning resumes after it. */
  lemma ReplaceAtFront(pat: string, rest: string, rep: string)
    requires |pat| > 0
    ensures ReplaceAll(pat + rest, pat, rep) == rep + ReplaceAll(rest, pat, rep)
  {
    assert (pat + rest)[..|pat|] == pat;
    assert (pat + rest)[|pat|..] == rest;
  }

  /** A piece in which the pattern cannot start, then an occurrence. */
  lemma ReplacePieceThenPattern(head: string, tail: string, pat: string, rep: string)
    requires |pat| > 0
    requires forall j :: 0 <= j < |head| ==> head[j] != pat[0]
    ensures ReplaceAll(head + (pat + tail), pat, rep) == head + (rep + ReplaceAll(tail, pat, rep))
  {
    ReplaceSkipsPrefix(head, pat + tail, pat, rep);
    ReplaceAtFront(pat, tail, rep);
  }

  lemma PartsAvoidTail(parts: seq<string>, c: char)
    requires |parts| > 0 && PartsAvoid(parts, c)
    ensures PartsAvoid(parts[1..], c)
    ensures forall j :: 0 <= j < |parts[0]| ==> parts[0][j] != c
  {
    forall i, j | 0 <= i < |parts[1..]| && 0 <= j < |parts[1..][i]|
      ensures parts[1..][i][j] != c
    {
      assert parts[1..][i] == parts[i + 1];
    }
  }

  /** What replace-all puts where, for any pattern: a text made of pieces in
      which the pattern cannot start, separated by occurrences of the
      pattern, becomes the same pieces separated by the replacement.
      `ReplaceSplit` below trades the condition on the pieces for one on the
      pattern; that is the form `{count}` substitution uses. */
  lemma {:induction false} ReplaceJoin(parts: seq<string>, pat: string, rep: string)
    requires |pat| > 0
    requires PartsAvoid(parts, pat[0])
    ensures ReplaceAll(JoinWith(parts, pat), pat, rep) == JoinWith(parts, rep)
    decreases |parts|
  {
    if |parts| == 1 {
      PartsAvoidTail(parts, pat[0]);
      ReplaceSkipsPrefix(parts[0], "", pat, rep);
      assert parts[0] + "" == parts[0];
    } else if |parts| > 1 {
      PartsAvoidTail(parts, pat[0]);
      var tail := JoinWith(parts[1..], pat);
      assert JoinWith(parts, pat) == parts[0] + (pat + tail);
      ReplacePieceThenPattern(parts[0], tail, pat, rep);
      ReplaceJoin(parts[1..], pat, rep);
      assert JoinWith(parts, rep) == parts[0] + (rep + JoinWith(parts[1..], rep));
    }
  }

  /** No part holds an occurrence of `pat`. */
  predicate FreeParts(parts: seq<string>, pat: string) {
    forall i :: 0 <= i < |parts| ==> !Contains(parts[i], pat)
  }

  /** The first character of the pattern does not recur in it, so an
      occurrence cannot start inside a shorter piece and run on into a
      following occurrence. */
  predicate FirstUnique(pat: string) {
    |pat| > 0 && forall k :: 0 < k < |pat| ==> pat[k] != pat[0]
  }

  lemma NoOccurrenceInTail(a: string, pat: string)
    requires |a| > 0 && !Contains(a, pat)
    ensures !Contains(a[1..], pat)
  {
    forall i | 0 <= i <= |a[1..]|
      ensures !OccursAt(a[1..], pat, i)
    {
      assert !OccursAt(a, pat, i + 1);
      if i + |pat| <= |a[1..]| {
        assert a[1..][i..i + |pat|] == a[i + 1..i + 1 + |pat|];
      }
    }
  }

  /** A non-empty piece without an occurrence, followed by one, does not
      match at its front. */
  lemma NoMatchAtPieceFront(a: string, rest: string, pat: string)
    requires FirstUnique(pat) && |a| > 0 && !Contains(a, pat)
    ensures (a + (pat + rest))[..|pat|] != pat
  {
    var s := a + (pat + rest);
    if |a| >= |pat| {
      assert !OccursAt(a, pat, 0);
      assert a[0..|pat|] == s[..|pat|];
    } else {
      assert s[..|pat|][|a|] == pat[0];
      assert pat[|a|] != pat[0];
    }
  }

  /** A piece without an occurrence is copied through, and the occurrence
      after it is replaced. */
  lemma {:induction false} ReplaceFreePiece(a: string, rest: string, pat: string, rep: string)
    requires FirstUnique(pat) && !Contains(a, pat)
    ensures ReplaceAll(a + (pat + rest), pat, rep) == a + (rep + ReplaceAll(rest, pat, rep))
    decreases |a|
  {
    if |a| == 0 {
      assert a + (pat + rest) == pat + rest;
      ReplaceAtFront(pat, rest, rep);
    } else {
      var s := a + (pat + rest);
      NoMatchAtPieceFront(a, rest, pat);
      assert ReplaceAll(s, pat, rep) == [s[0]] + ReplaceAll(s[1..], pat, rep);
      assert s[1..] == a[1..] + (pat + rest);
      NoOccurrenceInTail(a, pat);
      ReplaceFreePiece(a[1..], rest, pat, rep);
      assert a == [a[0]] + a[1..];
    }
  }

  /** For a pattern whose first character is unique in it, any way of writing
      the text as occurrence-free pieces separated by the pattern is replaced
      piece by piece. */
  lemma {:induction false} ReplaceSplit(parts: seq<string>, pat: string, rep: string)
    requires FirstUnique(pat) && FreeParts(parts, pat)
    ensures ReplaceAll(JoinWith(parts, pat), pat, rep) == JoinWith(parts, rep)
    decreases |parts|
  {
    if |parts| == 1 {
      ReplaceAbsent(parts[0], pat, rep);
    } else if |parts| > 1 {
      var tail := JoinWith(parts[1..], pat);
      assert JoinWith(parts, pat) == parts[0] + (pat + tail);
      ReplaceFreePiece(parts[0], tail, pat, rep);
      assert FreeParts(parts[1..], pat) by {
        forall i | 0 <= i < |parts[1..]|
          ensures !Contains(parts[1..][i], pat)
        {
          assert parts[1..][i] == parts[i + 1];
        }
      }
      ReplaceSplit(parts[1..], pat, rep);
      assert JoinWith(parts, rep) == parts[0] + (rep + JoinWith(parts[1..], rep));
    }
  }

  /** Cuts `s` at the occurrences of `pat` the left-to-right scan finds. */
  function SplitOn(s: string, pat: string): (parts: seq<string>)
    requires |pat| > 0
    ensures |parts| > 0
    decreases |s|
  {
    if |s| < |pat| then [s]
    else if s[..|pat|] == pat then [""] + SplitOn(s[|pat|..], pat)
    else var t := SplitOn(s[1..], pat); [[s[0]] + t[0]] + t[1..]
  }

  /** Every text splits into occurrence-free pieces that join back to it. */
  lemma {:induction false} SplitOnJoins(s: string, pat: string)
    requires |pat| > 0
    ensures JoinWith(SplitOn(s, pat), pat) == s
    ensures FreeParts(SplitOn(s, pat), pat)
    decreases |s|
  {
    if |s| < |pat| {
      assert forall i :: 0 <= i <= |s| ==> !OccursAt(s, pat, i);
    } else if s[..|pat|] == pat {
      SplitOnJoins(s[|pat|..], pat);
      SplitAtMatch(s, SplitOn(s[|pat|..], pat), pat);
    } else {
      SplitOnJoins(s[1..], pat);
      SplitAfterChar(s, SplitOn(s[1..], pat), pat);
    }
  }

  /** A match at the front opens an empty piece. */
  lemma SplitAtMatch(s: string, t: seq<string>, pat: string)
    requires |pat| > 0 && |s| >= |pat| && s[..|pat|] == pat
    requires |t| > 0 && FreeParts(t, pat) && JoinWith(t, pat) == s[|pat|..]
    ensures JoinWith([""] + t, pat) == s
    ensures FreeParts([""] + t, pat)
  {
    JoinEmptyFirst(t, pat);
    assert s == s[..|pat|] + s[|pat|..];
    EmptyFirstFree(t, pat);
  }

  lemma JoinEmptyFirst(t: seq<string>, sep: string)
    requires |t| > 0
    ensures JoinWith([""] + t, sep) == sep + JoinWith(t, sep)
  {
    assert ([""] + t)[1..] == t;
  }

  lemma EmptyFirstFree(t: seq<string>, pat: string)
    requires |pat| > 0 && FreeParts(t, pat)
    ensures FreeParts([""] + t, pat)
  {
    var parts := [""] + t;
    forall i | 0 <= i < |parts|
      ensures !Contains(parts[i], pat)
    {
      if i == 0 {
        assert forall j :: 0 <= j <= 0 ==> !OccursAt(parts[0], pat, j);
      } else {
        assert parts[i] == t[i - 1];
      }
    }
  }

  /** No match at the front: the first character joins the first piece. */
  lemma SplitAfterChar(s: string, t: seq<string>, pat: string)
    requires |pat| > 0 && |s| >= |pat| && s[..|pat|] != pat
    requires |t| > 0 && FreeParts(t, pat) && JoinWith(t, pat) == s[1..]
    ensures JoinWith([[s[0]] + t[0]] + t[1..], pat) == s
    ensures FreeParts([[s[0]] + t[0]] + t[1..], pat)
  {
    var parts := [[s[0]] + t[0]] + t[1..];
    SplitHeadJoin(s[0], t, pat);
    assert s == [s[0]] + s[1..];
    SplitHeadFree(s, t, pat);
    forall i | 0 < i < |parts|
      ensures !Contains(parts[i], pat)
    {
      assert parts[i] == t[i];
    }
  }

  lemma SplitHeadJoin(c: char, t: seq<string>, sep: string)
    requires |t| > 0
    ensures JoinWith([[c] + t[0]] + t[1..], sep) == [c] + JoinWith(t, sep)
  {
    var u := [[c] + t[0]] + t[1..];
    if |t| > 1 {
      assert u[1..] == t[1..];
    }
  }

  /** The first piece is where the joined text begins. */
  lemma JoinStartsWithFirst(t: seq<string>, sep: string)
    requires |t| > 0
    ensures |t[0]| <= |JoinWith(t, sep)|
    ensures JoinWith(t, sep)[..|t[0]|] == t[0]
  {
    if |t| > 1 {
      assert JoinWith(t, sep) == t[0] + (sep + JoinWith(t[1..], sep));
    }
  }

  /** The first character of `s` followed by the first piece of a splitting
      of the rest is a prefix of `s`. */
  lemma GrownPieceIsPrefix(s: string, t: seq<string>, pat: string)
    requires |s| > 0 && |t| > 0 && JoinWith(t, pat) == s[1..]
    ensures 1 + |t[0]| <= |s|
    ensures [s[0]] + t[0] == s[..1 + |t[0]|]
  {
    JoinStartsWithFirst(t, pat);
    assert s[1..][..|t[0]|] == t[0];
    assert s[..1 + |t[0]|] == [s[0]] + s[1..][..|t[0]|];
  }

  /** The first piece grown by one character stays free: it is a prefix of
      the text, which does not match at its front. */
  lemma SplitHeadFree(s: string, t: seq<string>, pat: string)
    requires |pat| > 0 && |s| >= |pat| && s[..|pat|] != pat
    requires |t| > 0 && !Contains(t[0], pat)
    requires JoinWith(t, pat) == s[1..]
    ensures !Contains([s[0]] + t[0], pat)
  {
    var h := [s[0]] + t[0];
    GrownPieceIsPrefix(s, t, pat);
    if |h| >= |pat| {
      assert h[0..|pat|] == s[..|h|][..|pat|] == s[..|pat|];
    }
    assert !OccursAt(h, pat, 0);
    NoOccurrenceAfterChar(s[0], t[0], pat);
  }

  /** Every placeholder in `text` becomes the decimal count. */
  function Substitute(text: string, count: nat): (r: string)
    ensures !Contains(r, Placeholder)
    ensures r == text <==> !Contains(text, Placeholder)
  {
    DecimalAvoidsPlaceholder(count);
    ReplaceLeavesNone(text, Placeholder, Decimal(count));
    ReplaceIsIdentityIff(text, Placeholder, Decimal(count));
    ReplaceAll(text, Placeholder, Decimal(count))
  }

  lemma DecimalAvoidsPlaceholder(n: nat)
    ensures forall c :: c in Decimal(n) ==> c !in Placeholder
  {
    var d := Decimal(n);
    forall c | c in d
      ensures c !in Placeholder
    {
      var i :| 0 <= i < |d| && d[i] == c;
      assert IsDigit(d[i]);
    }
  }

  /** After substitution no placeholder is left, and substitution leaves a
      text unchanged exactly when it had no placeholder. */
  lemma SubstituteComplete(text: string, count: nat)
    ensures !Contains(Substitute(text, count), Placeholder)
    ensures Substitute(text, count) == text <==> !Contains(text, Placeholder)
    // Each placeholder becomes the decimal count, the text around it is kept:
    // for any cutting of the text at placeholders into placeholder-free
    // pieces, and in particular for the cutting the scan finds.
    ensures forall parts :: FreeParts(parts, Placeholder) && text == JoinWith(parts, Placeholder) ==>
              Substitute(text, count) == JoinWith(parts, Decimal(count))
    ensures var parts := SplitOn(text, Placeholder);
            && FreeParts(parts, Placeholder) && JoinWith(parts, Placeholder) == text
            && Substitute(text, count) == JoinWith(parts, Decimal(count))
  {
    assert FirstUnique(Placeholder);
    forall parts | FreeParts(parts, Placeholder) && text == JoinWith(parts, Placeholder)
      ensures Substitute(text, count) == JoinWith(parts, Decimal(count))
    {
      ReplaceSplit(parts, Placeholder, Decimal(count));
    }
    SplitOnJoins(text, Placeholder);
    DecimalAvoidsPlaceholder(count);
    ReplaceLeavesNone(text, Placeholder, Decimal(count));
    ReplaceIsIdentityIff(text, Placeholder, Decimal(count));
  }

  /** A text without a `{` cannot hold the placeholder. */
  lemma NoBraceNoPlaceholder(text: string)
    requires forall i :: 0 <= i < |text| ==> text[i] != '{'
    ensures !Contains(text, Placeholder)
  {
    forall i | 0 <= i <= |text|
      ensures !OccursAt(text, Placeholder, i)
    {
      if i < |text| {
        assert text[i] != Placeholder[0];
      }
    }
  }
}
