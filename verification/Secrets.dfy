/**
 * `register_secret` and `scrub` (src/spconnect/config.py:32-71): every registered secret is
 * replaced by a marker word, longest first.
 */
module Secrets {
  import opened Options

  const MARKER := "***REDACTED***"

  predicate StartsWith(text: string, s: string) {
    |s| <= |text| && text[..|s|] == s
  }

  ghost predicate At(text: string, i: nat, s: string) {
    i <= |text| && StartsWith(text[i..], s)
  }

  ghost predicate Occurs(s: string, text: string) {
    exists i: nat :: At(text, i, s)
  }

  /** `text.replace(s, MARKER)`: leftmost occurrences, none overlapping. */
  function Replace(text: string, s: string): string
    requires s != ""
    decreases |text|
  {
    if text == "" then ""
    else if StartsWith(text, s) then MARKER + Replace(text[|s|..], s)
    else [text[0]] + Replace(text[1..], s)
  }

  /** The secrets one after the other. */
  function ScrubAll(order: seq<string>, text: string): string
    requires "" !in order
  {
    if order == [] then text else ScrubAll(order[1..], Replace(text, order[0]))
  }

  /** The secret can share text with the marker: it lies in it, contains it, or overlaps one of
      its ends. */
  ghost predicate Touches(s: string) {
    || Occurs(s, MARKER)
    || Occurs(MARKER, s)
    || (exists n :: 0 < n < |s| && n <= |MARKER| && EndsLikeMarkerBegins(s, n))
    || (exists n :: 0 < n < |s| && n <= |MARKER| && BeginsLikeMarkerEnds(s, n))
  }

  ghost predicate EndsLikeMarkerBegins(s: string, n: nat)
    requires n <= |s| && n <= |MARKER|
  {
    s[|s| - n..] == MARKER[..n]
  }

  ghost predicate BeginsLikeMarkerEnds(s: string, n: nat)
    requires n <= |s| && n <= |MARKER|
  {
    s[..n] == MARKER[|MARKER| - n..]
  }

  // ---- occurrences under concatenation ----

  lemma AtShift(a: string, b: string, i: nat, s: string)
    requires i >= |a|
    ensures At(a + b, i, s) <==> At(b, i - |a|, s)
  {
    if i <= |a + b| {
      assert (a + b)[i..] == b[i - |a|..];
    }
  }

  lemma OverlapTouches(s: string, rest: string, i: nat)
    requires s != "" && i < |MARKER| && At(MARKER + rest, i, s)
    ensures Touches(s)
  {
    var whole := MARKER + rest;
    assert whole[i..][..|s|] == whole[i..i + |s|];
    if i + |s| <= |MARKER| {
      assert MARKER[i..][..|s|] == whole[i..i + |s|];
      assert At(MARKER, i, s);
    } else {
      var n := |MARKER| - i;
      assert s[..n] == whole[i..i + n] == MARKER[i..];
      assert BeginsLikeMarkerEnds(s, n);
    }
  }

  /** An occurrence in marker + rest lies in the rest, unless the secret touches the marker. */
  lemma NotInMarker(s: string, rest: string, i: nat)
    requires s != "" && !Touches(s) && At(MARKER + rest, i, s)
    ensures i >= |MARKER| && At(rest, i - |MARKER|, s)
  {
    if i < |MARKER| {
      OverlapTouches(s, rest, i);
    } else {
      AtShift(MARKER, rest, i, s);
    }
  }

  /** What is left of a secret cannot begin with the marker. */
  lemma NoMarkerInside(s: string, j: nat, rest: string)
    requires 0 < j < |s| && StartsWith(MARKER + rest, s[j..])
    ensures Touches(s)
  {
    var whole, n := MARKER + rest, |s| - j;
    if n <= |MARKER| {
      assert s[|s| - n..] == whole[..n] == MARKER[..n];
      assert EndsLikeMarkerBegins(s, n);
    } else {
      assert s[j..][..|MARKER|] == whole[..n][..|MARKER|] == MARKER;
      assert At(s, j, MARKER);
    }
  }

  /** Text copied by a replacement was there before it. */
  lemma {:induction false} CopiedPrefix(s: string, j: nat, text: string, r: string)
    requires r != "" && !Touches(s) && 0 < j <= |s| && StartsWith(Replace(text, r), s[j..])
    ensures StartsWith(text, s[j..])
    decreases |text|
  {
    if j < |s| {
      if StartsWith(text, r) {
        NoMarkerInside(s, j, Replace(text[|r|..], r));
      } else {
        var after := Replace(text[1..], r);
        assert s[j..] == [s[j]] + s[j + 1..];
        assert ([text[0]] + after)[..|s| - j] == [text[0]] + after[..|s| - j - 1];
        CopiedPrefix(s, j + 1, text[1..], r);
        assert text[..|s| - j] == [text[0]] + text[1..][..|s| - j - 1];
      }
    }
  }

  lemma {:induction false} CopiedAtFront(s: string, text: string, r: string)
    requires s != "" && r != "" && !Touches(s) && text != "" && !StartsWith(text, r)
    requires StartsWith(Replace(text, r), s)
    ensures StartsWith(text, s)
  {
    var after := Replace(text[1..], r);
    assert s == [s[0]] + s[1..];
    assert ([text[0]] + after)[..|s|] == [text[0]] + after[..|s| - 1];
    CopiedPrefix(s, 1, text[1..], r);
    assert text[..|s|] == [text[0]] + text[1..][..|s| - 1];
  }

  /** Replacing one secret never makes another one appear. */
  lemma {:induction false} NothingNew(s: string, text: string, r: string)
    requires s != "" && r != "" && !Touches(s) && Occurs(s, Replace(text, r))
    ensures Occurs(s, text)
    decreases |text|
  {
    var i: nat :| At(Replace(text, r), i, s);
    if StartsWith(text, r) {
      NotInMarker(s, Replace(text[|r|..], r), i);
      NothingNew(s, text[|r|..], r);
      OccursBehind(s, text, |r|);
    } else if i == 0 {
      CopiedAtFront(s, text, r);
      assert At(text, 0, s);
    } else {
      AtShift([text[0]], Replace(text[1..], r), i, s);
      NothingNew(s, text[1..], r);
      OccursBehind(s, text, 1);
    }
  }

  lemma OccursBehind(s: string, text: string, k: nat)
    requires k <= |text| && Occurs(s, text[k..])
    ensures Occurs(s, text)
  {
    var i: nat :| At(text[k..], i, s);
    AtShift(text[..k], text[k..], i + k, s);
    assert text[..k] + text[k..] == text;
  }

  /** Replacing a secret removes it. */
  lemma {:induction false} Gone(r: string, text: string)
    requires r != "" && !Touches(r)
    ensures !Occurs(r, Replace(text, r))
    decreases |text|
  {
    var out := Replace(text, r);
    forall i: nat | At(out, i, r) ensures false {
      if StartsWith(text, r) {
        NotInMarker(r, Replace(text[|r|..], r), i);
        Gone(r, text[|r|..]);
      } else if i == 0 {
        CopiedAtFront(r, text, r);
      } else {
        AtShift([text[0]], Replace(text[1..], r), i, r);
        Gone(r, text[1..]);
      }
    }
  }

  lemma {:induction false} UntouchedText(text: string, s: string)
    requires s != "" && !Occurs(s, text)
    ensures Replace(text, s) == text
  {
    if text != "" {
      assert text[0..] == text && !At(text, 0, s);
      if Occurs(s, text[1..]) {
        OccursBehind(s, text, 1);
      }
      UntouchedText(text[1..], s);
    }
  }

  // ---- all secrets ----

  ghost predicate Safe(order: seq<string>) {
    "" !in order && forall k :: 0 <= k < |order| ==> !Touches(order[k])
  }

  lemma {:induction false} StaysGone(order: seq<string>, text: string, s: string)
    requires Safe(order) && s != "" && !Touches(s) && !Occurs(s, text)
    ensures !Occurs(s, ScrubAll(order, text))
  {
    if order != [] {
      if Occurs(s, Replace(text, order[0])) {
        NothingNew(s, text, order[0]);
      }
      StaysGone(order[1..], Replace(text, order[0]), s);
    }
  }

  /** After scrubbing, no registered secret is left anywhere in the text, in whatever order the
      secrets were taken. */
  lemma {:induction false} NoSecretLeft(order: seq<string>, text: string, s: string)
    requires Safe(order) && s in order
    ensures !Occurs(s, ScrubAll(order, text))
  {
    if s == order[0] {
      Gone(s, text);
      StaysGone(order[1..], Replace(text, s), s);
    } else {
      NoSecretLeft(order[1..], Replace(text, order[0]), s);
    }
  }

  lemma {:induction false} NothingToScrub(order: seq<string>, text: string)
    requires "" !in order && forall k :: 0 <= k < |order| ==> !Occurs(order[k], text)
    ensures ScrubAll(order, text) == text
  {
    if order != [] {
      UntouchedText(text, order[0]);
      NothingToScrub(order[1..], text);
    }
  }

  /** A second scrub changes nothing. */
  lemma {:induction false} ScrubTwice(order: seq<string>, text: string)
    requires Safe(order)
    ensures ScrubAll(order, ScrubAll(order, text)) == ScrubAll(order, text)
  {
    forall k | 0 <= k < |order| ensures !Occurs(order[k], ScrubAll(order, text)) {
      NoSecretLeft(order, text, order[k]);
    }
    NothingToScrub(order, ScrubAll(order, text));
  }

  lemma TouchingNeedsAsterisk(s: string)
    ensures Touches(s) && !Occurs(s, MARKER) ==> '*' in s
  {
    if Occurs(MARKER, s) {
      var i: nat :| At(s, i, MARKER);
      assert s[i..][..|MARKER|][0] == '*' == s[i];
    }
    forall n | 0 < n < |s| && n <= |MARKER| && EndsLikeMarkerBegins(s, n) ensures '*' in s {
      assert s[|s| - n..][0] == s[|s| - n] && MARKER[..n][0] == '*';
    }
    forall n | 0 < n < |s| && n <= |MARKER| && BeginsLikeMarkerEnds(s, n) ensures '*' in s {
      assert s[..n][n - 1] == s[n - 1] && MARKER[|MARKER| - n..][n - 1] == '*';
    }
  }

  /** Secrets without an asterisk that are no part of the marker are safe. */
  lemma PlainSecretsAreSafe(order: seq<string>)
    requires "" !in order
    requires forall k :: 0 <= k < |order| ==> '*' !in order[k] && !Occurs(order[k], MARKER)
    ensures Safe(order)
  {
    forall k | 0 <= k < |order| ensures !Touches(order[k]) {
      TouchingNeedsAsterisk(order[k]);
    }
  }

  // ---- secrets that touch the marker ----

  lemma {:induction false} TooShort(text: string, s: string)
    requires |text| < |s|
    ensures Replace(text, s) == text
  {
    if text != "" {
      TooShort(text[1..], s);
    }
  }

  lemma StartsAlike(text: string, s: string)
    ensures StartsWith(text, s) ==> forall i :: 0 <= i < |s| ==> text[i] == s[i]
  {
    forall i | StartsWith(text, s) && 0 <= i < |s| ensures text[i] == s[i] {
      assert text[..|s|][i] == s[i];
    }
  }

  /** Text in which no occurrence begins is copied. */
  lemma {:induction false} TextIsCopied(m: string, rest: string, s: string)
    requires s != "" && forall k :: 0 <= k < |m| ==> !StartsWith((m + rest)[k..], s)
    ensures Replace(m + rest, s) == m + Replace(rest, s)
    decreases |m|
  {
    var text := m + rest;
    if m == "" {
      assert text == rest;
    } else {
      assert text[0..] == text && text[1..] == m[1..] + rest && m == [m[0]] + m[1..];
      forall k | 0 <= k < |m[1..]| ensures !StartsWith((m[1..] + rest)[k..], s) {
        assert (m[1..] + rest)[k..] == text[k + 1..];
      }
      TextIsCopied(m[1..], rest, s);
    }
  }

  lemma NoEarlyMatch(p: string, s: string, tail: string, k: nat)
    requires |p| < |s| && p == s[..|p|] && s[0] != '*' && s[|p|] == '*' && k < |p|
    ensures !StartsWith(p[k..] + s + tail, s)
  {
    var text := p[k..] + s + tail;
    assert text[0] == p[k] == s[k] && text[|p|] == s[k];
    StartsAlike(text, s);
  }

  /** A piece of the secret in front of the whole secret is copied, because the secret has an
      asterisk right behind that piece and does not begin with one. */
  lemma {:induction false} PieceIsCopied(p: string, s: string, tail: string)
    requires |p| < |s| && p == s[..|p|] && s[0] != '*' && s[|p|] == '*'
    ensures Replace(p + (s + tail), s) == p + (MARKER + Replace(tail, s))
  {
    forall k | 0 <= k < |p| ensures !StartsWith((p + (s + tail))[k..], s) {
      NoEarlyMatch(p, s, tail, k);
      assert (p + (s + tail))[k..] == p[k..] + s + tail;
    }
    TextIsCopied(p, s + tail, s);
    assert (s + tail)[..|s|] == s && (s + tail)[|s|..] == tail;
  }

  lemma {:induction false} SecretFirst(s: string, tail: string)
    requires s != "" && |tail| < |s|
    ensures Replace(s + tail, s) == MARKER + tail
  {
    assert (s + tail)[..|s|] == s && (s + tail)[|s|..] == tail;
    TooShort(tail, s);
  }

  /** The marker's end and the rest of the secret make the secret again. */
  lemma {:induction false} EndPlusRest(s: string, n: nat) returns (text: string)
    requires 0 < n <= |s| && n <= |MARKER| && BeginsLikeMarkerEnds(s, n)
    ensures Occurs(s, Replace(text, s))
  {
    text := s + s[n..];
    SecretFirst(s, s[n..]);
    var out, i := MARKER + s[n..], |MARKER| - n;
    assert out[i..] == MARKER[i..] + s[n..];
    assert MARKER[i..] + s[n..] == s[..n] + s[n..] == s;
    assert At(out, i, s);
  }

  /** A piece of the secret, the marker, and the rest of the secret. */
  lemma PiecePlusMarker(s: string, k: nat, tail: string) returns (text: string)
    requires k < |s| && s[0] != '*' && s[k] == '*' && |tail| < |s|
    requires StartsWith(s[..k] + MARKER + tail, s)
    ensures Occurs(s, Replace(text, s))
  {
    text := s[..k] + (s + tail);
    PieceIsCopied(s[..k], s, tail);
    TooShort(tail, s);
    var out := s[..k] + (MARKER + tail);
    assert out == s[..k] + MARKER + tail;
    assert out[0..] == out;
    assert At(out, 0, s);
  }

  /** Every secret that touches the marker has a text it survives in. */
  lemma TouchingSurvives(s: string) returns (text: string)
    requires s != "" && Touches(s)
    ensures Occurs(s, Replace(text, s))
  {
    if s[0] == '*' {
      assert MARKER[|MARKER| - 1..] == "*" == s[..1];
      text := EndPlusRest(s, 1);
    } else if Occurs(s, MARKER) {
      text := s;
      SecretFirst(s, "");
      assert s + "" == s && MARKER + "" == MARKER;
    } else if n :| 0 < n < |s| && n <= |MARKER| && BeginsLikeMarkerEnds(s, n) {
      text := EndPlusRest(s, n);
    } else if n :| 0 < n < |s| && n <= |MARKER| && EndsLikeMarkerBegins(s, n) {
      var k := |s| - n;
      assert s[k] == s[k..][0] == MARKER[..n][0];
      assert (s[..k] + MARKER + "")[..|s|] == s[..k] + MARKER[..n] == s;
      text := PiecePlusMarker(s, k, "");
    } else {
      var i: nat :| At(s, i, MARKER);
      assert s[i] == s[i..][..|MARKER|][0] == '*';
      var tail := s[i + |MARKER|..];
      assert s[i..] == s[i..][..|MARKER|] + tail && s == s[..i] + s[i..];
      assert s[..i] + MARKER + tail == s;
      text := PiecePlusMarker(s, i, tail);
    }
  }

  /** Replacing the secret in this text leaves none of it. */
  ghost predicate GoneFrom(s: string, text: string)
    requires s != ""
  {
    !Occurs(s, Replace(text, s))
  }

  /** One secret on its own: it is gone from every scrubbed text exactly when it does not touch
      the marker. */
  lemma SafeExactly(s: string)
    requires s != ""
    ensures (forall text: string :: GoneFrom(s, text)) <==> !Touches(s)
  {
    if Touches(s) {
      var text := TouchingSurvives(s);
      assert !GoneFrom(s, text);
    } else {
      forall text: string ensures GoneFrom(s, text) {
        Gone(s, text);
      }
    }
  }

  // ---- why longest first ----

  /** The marker is copied: no safe secret begins in it. */
  lemma {:induction false} MarkerIsCopied(s: string, rest: string)
    requires s != "" && !Touches(s)
    ensures Replace(MARKER + rest, s) == MARKER + Replace(rest, s)
  {
    forall k | 0 <= k < |MARKER| ensures !StartsWith((MARKER + rest)[k..], s) {
      if StartsWith((MARKER + rest)[k..], s) {
        OverlapTouches(s, rest, k);
      }
    }
    TextIsCopied(MARKER, rest, s);
  }

  lemma MarkerInside(s: string, text: string, i: nat)
    requires StartsWith(text, s) && At(text, i, MARKER) && i < |s|
    ensures Touches(s)
  {
    var n := |s| - i;
    assert text[i..][..|MARKER|] == text[i..i + |MARKER|];
    assert s[i..] == text[i..|s|];
    if n >= |MARKER| {
      assert s[i..][..|MARKER|] == text[i..i + |MARKER|];
      assert At(s, i, MARKER);
    } else if i > 0 {
      assert MARKER[..n] == text[i..i + |MARKER|][..n];
      assert EndsLikeMarkerBegins(s, n);
    } else {
      assert MARKER[0..][..|s|] == s;
      assert At(MARKER, 0, s);
    }
  }

  /** A safe secret at the front of a text lies before any marker in it. */
  lemma MarkerBehind(s: string, text: string, i: nat)
    requires s != "" && !Touches(s) && StartsWith(text, s) && At(text, i, MARKER)
    ensures i >= |s|
  {
    if i < |s| {
      MarkerInside(s, text, i);
    }
  }

  /** A text with a marker and something beside it. */
  ghost predicate MarkedAndMore(text: string) {
    Occurs(MARKER, text) && |text| > |MARKER|
  }

  lemma {:induction false} NotShorter(text: string, s: string)
    requires s != ""
    ensures text != "" ==> Replace(text, s) != ""
  {
  }

  lemma MarkerFirst(rest: string)
    requires rest != ""
    ensures MarkedAndMore(MARKER + rest)
  {
    assert (MARKER + rest)[0..][..|MARKER|] == MARKER;
    assert At(MARKER + rest, 0, MARKER);
  }

  lemma CharFirst(c: char, rest: string)
    requires Occurs(MARKER, rest)
    ensures MarkedAndMore([c] + rest)
  {
    assert ([c] + rest)[1..] == rest;
    OccursBehind(MARKER, [c] + rest, 1);
  }

  lemma JustMarker(text: string)
    requires Occurs(MARKER, text) && |text| <= |MARKER|
    ensures text == MARKER
  {
    var i: nat :| At(text, i, MARKER);
    assert text[0..] == text && text[..|MARKER|] == text;
  }

  lemma MarkerAlone()
    ensures Occurs(MARKER, MARKER)
  {
    assert MARKER[0..] == MARKER && MARKER[..|MARKER|] == MARKER;
    assert At(MARKER, 0, MARKER);
  }

  /** A marker with something beside it stays one: what is left of a secret is there for good. */
  lemma {:induction false} StaysMarked(text: string, s: string)
    requires s != "" && !Touches(s) && MarkedAndMore(text)
    ensures MarkedAndMore(Replace(text, s))
    decreases |text|, 0
  {
    var i: nat :| At(text, i, MARKER);
    if StartsWith(text, s) {
      MarkerBehind(s, text, i);
      NotShorter(text[|s|..], s);
      MarkerFirst(Replace(text[|s|..], s));
    } else if i == 0 {
      var rest := text[|MARKER|..];
      assert text == MARKER + rest;
      MarkerIsCopied(s, rest);
      NotShorter(rest, s);
      MarkerFirst(Replace(rest, s));
    } else {
      var rest := text[1..];
      assert rest[i - 1..] == text[i..];
      assert At(rest, i - 1, MARKER);
      StaysBehind(rest, s);
      CharFirst(text[0], Replace(rest, s));
    }
  }

  lemma {:induction false} StaysBehind(rest: string, s: string)
    requires s != "" && !Touches(s) && Occurs(MARKER, rest)
    ensures Occurs(MARKER, Replace(rest, s))
    decreases |rest|, 1
  {
    MarkerAlone();
    if |rest| > |MARKER| {
      StaysMarked(rest, s);
    } else {
      JustMarker(rest);
      MarkerIsCopied(s, "");
      assert MARKER + "" == MARKER;
    }
  }

  lemma {:induction false} FragmentsStay(order: seq<string>, text: string)
    requires Safe(order) && MarkedAndMore(text)
    ensures ScrubAll(order, text) != MARKER
    decreases |order|
  {
    if order != [] {
      StaysMarked(text, order[0]);
      FragmentsStay(order[1..], Replace(text, order[0]));
    }
  }

  /** Replacing a proper part leaves the marker and what was beside it. */
  lemma {:induction false} PartLeavesMore(text: string, s: string)
    requires s != "" && Occurs(s, text) && text != s
    ensures MarkedAndMore(Replace(text, s))
    decreases |text|
  {
    var i: nat :| At(text, i, s);
    if StartsWith(text, s) {
      assert text[..|s|] + text[|s|..] == text;
      NotShorter(text[|s|..], s);
      MarkerFirst(Replace(text[|s|..], s));
    } else {
      var rest := text[1..];
      assert text[0..] == text && rest[i - 1..] == text[i..];
      assert At(rest, i - 1, s);
      if rest == s {
        MarkerAlone();
        SecretFirst(s, "");
        assert s + "" == s && MARKER + "" == MARKER;
      } else {
        PartLeavesMore(rest, s);
      }
      CharFirst(text[0], Replace(rest, s));
    }
  }

  /** A secret is replaced as a whole, with no fragment beside the marker, exactly when no secret that
      is taken before it lies in it. */
  lemma {:induction false} WholeSecretExactly(order: seq<string>, n: nat)
    requires Safe(order) && n < |order| && order[n] !in order[..n]
    ensures ScrubAll(order, order[n]) == "***REDACTED***" <==> forall k :: 0 <= k < n ==> !Occurs(order[k], order[n])
    decreases n
  {
    var s, first := order[n], order[0];
    if n == 0 {
      SecretFirst(s, "");
      assert s + "" == s && MARKER + "" == MARKER;
      MarkerStays(order[1..]);
    } else {
      assert first in order[..n];
      assert forall k :: 0 <= k < n - 1 ==> order[1..][k] == order[k + 1];
      if Occurs(first, s) {
        PartLeavesMore(s, first);
        FragmentsStay(order[1..], Replace(s, first));
      } else {
        UntouchedText(s, first);
        assert order[1..][..n - 1] == order[..n][1..];
        WholeSecretExactly(order[1..], n - 1);
        assert forall k :: 0 < k < n ==> order[k] == order[1..][k - 1];
      }
    }
  }

  lemma {:induction false} MarkerStays(order: seq<string>)
    requires Safe(order)
    ensures ScrubAll(order, MARKER) == MARKER
  {
    NothingToScrub(order, MARKER);
  }

  /** Longest first, that is so for every secret. */
  lemma {:induction false} LongestFirstLeavesNone(order: seq<string>, n: nat)
    requires Safe(order) && LongestFirst(order) && n < |order|
    ensures ScrubAll(order, order[n]) == "***REDACTED***"
  {
    var i := FirstIndex(order, order[n]);
    forall k | 0 <= k < i ensures !Occurs(order[k], order[i]) {
      assert order[k] in order[..i];
      LongInShort(order[k], order[i]);
    }
    WholeSecretExactly(order, i);
  }

  lemma LongInShort(a: string, b: string)
    requires |a| >= |b|
    ensures Occurs(a, b) ==> a == b
  {
    if Occurs(a, b) {
      var j: nat :| At(b, j, a);
      assert b[0..] == b && b[..|a|] == a;
    }
  }

  lemma FirstIndex(order: seq<string>, s: string) returns (i: nat)
    requires s in order
    ensures i < |order| && order[i] == s && s !in order[..i]
  {
    i := 0;
    while order[i] != s
      invariant i < |order| && s !in order[..i] && s in order[i..]
      decreases |order| - i
    {
      assert order[i..] == [order[i]] + order[i + 1..];
      assert order[..i + 1] == order[..i] + [order[i]];
      i := i + 1;
    }
  }

  // ---- the module's own state ----

  ghost predicate LongestFirst(order: seq<string>) {
    forall i, j :: 0 <= i < j < |order| ==> |order[i]| >= |order[j]|
  }

  /** The registry. `quote` and `base64` are the library's encoders. */
  class Registry {
    var secrets: set<string>

    constructor ()
      ensures secrets == {}
    {
      secrets := {};
    }

    /** Too short a value is not registered; a longer one comes with the forms it travels in. */
    method Register(value: Option<string>, username: Option<string>, quote: string -> string, base64: string -> string)
      requires "" !in secrets
      modifies this
      ensures "" !in secrets && old(secrets) <= secrets
      ensures value.None? || |value.value| < 3 ==> secrets == old(secrets)
      ensures value.Some? && |value.value| >= 3 ==> value.value in secrets
      ensures value.Some? && |value.value| >= 3 ==>
        var pair := (if username.Some? then username.value else "") + ":" + value.value;
        var forms := {value.value, quote(value.value), base64(value.value)} +
                     if username.Some? && username.value != "" then {base64(pair), quote(pair)} else {};
        secrets == (old(secrets) + forms) - {""}
    {
      if value.None? || |value.value| < 3 {
        return;
      }
      secrets := secrets + {value.value} + {quote(value.value)} + {base64(value.value)};
      if username.Some? && username.value != "" {
        var pair := username.value + ":" + value.value;
        secrets := secrets + {base64(pair)} + {quote(pair)};
      }
      secrets := secrets - {""};
    }

    /** The loop over the secrets, longest first; ties in any order. */
    method Scrub(text: string) returns (clean: string, ghost order: seq<string>)
      requires "" !in secrets
      ensures forall s :: s in order <==> s in secrets
      ensures clean == ScrubAll(order, text) && LongestFirst(order)
      ensures (forall s :: s in secrets ==> !Touches(s)) ==> forall s :: s in secrets ==> !Occurs(s, clean)
    {
      clean, order := text, [];
      var rest := secrets;
      while rest != {}
        invariant rest <= secrets && (forall s :: s in order <==> s in secrets - rest)
        invariant LongestFirst(order) && forall i, s :: 0 <= i < |order| && s in rest ==> |order[i]| >= |s|
        invariant clean == ScrubAll(order, text)
        decreases |rest|
      {
        LongestExists(rest);
        var secret :| secret in rest && forall s :: s in rest ==> |s| <= |secret|;
        ScrubOneMore(order, text, secret);
        if HasSecret(clean, secret) {
          clean := Replace(clean, secret);
        } else {
          UntouchedText(clean, secret);
        }
        order, rest := order + [secret], rest - {secret};
      }
      assert rest == {} && forall s :: s in order <==> s in secrets;
      if forall s :: s in secrets ==> !Touches(s) {
        assert forall k :: 0 <= k < |order| ==> order[k] in order;
        forall s | s in secrets ensures !Occurs(s, clean) {
          NoSecretLeft(order, text, s);
        }
      }
    }
  }

  /** `secret in text`. */
  predicate HasSecret(text: string, s: string)
    ensures HasSecret(text, s) <==> Occurs(s, text)
  {
    assert (exists i :: 0 <= i <= |text| && StartsWith(text[i..], s)) <==> Occurs(s, text) by {
      if Occurs(s, text) {
        var i: nat :| At(text, i, s);
        assert StartsWith(text[i..], s);
      }
      if i :| 0 <= i <= |text| && StartsWith(text[i..], s) {
        assert At(text, i, s);
      }
    }
    exists i :: 0 <= i <= |text| && StartsWith(text[i..], s)
  }

  lemma {:induction false} LongestExists(rest: set<string>)
    requires rest != {}
    ensures exists m :: m in rest && forall s :: s in rest ==> |s| <= |m|
    decreases |rest|
  {
    var a :| a in rest;
    if rest != {a} {
      var others := rest - {a};
      assert rest == others + {a};
      LongestExists(others);
      var m :| m in others && forall s :: s in others ==> |s| <= |m|;
      var longest := if |m| > |a| then m else a;
      assert longest in rest && forall s :: s in rest ==> |s| <= |longest|;
    }
  }

  lemma {:induction false} ScrubOneMore(order: seq<string>, text: string, s: string)
    requires "" !in order && s != ""
    ensures ScrubAll(order + [s], text) == Replace(ScrubAll(order, text), s)
  {
    if order == [] {
      assert ([] + [s])[1..] == [];
    } else {
      assert (order + [s])[1..] == order[1..] + [s];
      ScrubOneMore(order[1..], Replace(text, order[0]), s);
    }
  }
}
