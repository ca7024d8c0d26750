/**
 * The `;#` encodings of the list web service (src/spconnect/decode.py:117-134, 217-278): the
 * splitter, multi-choice values, single and multiple lookups. A missing value reads like an
 * empty one; the warnings the decoders raise are not part of this model.
 */
module Codecs {
  import opened Options

  const DELIM := ";#"

  // ---- Python's text primitives ----

  /** What `str.strip` takes for white space. */
  predicate Blank(c: char) {
    var n := c as int;
    || 0x09 <= n <= 0x0d || 0x1c <= n <= 0x20 || n == 0x85 || n == 0xa0 || n == 0x1680
    || 0x2000 <= n <= 0x200a || n == 0x2028 || n == 0x2029 || n == 0x202f || n == 0x205f || n == 0x3000
  }

  function TrimStart(s: string): string {
    if s != "" && Blank(s[0]) then TrimStart(s[1..]) else s
  }

  function TrimEnd(s: string): (r: string)
    ensures r <= s
    ensures r == s <==> s == "" || !Blank(s[|s| - 1])
    ensures r == "" || !Blank(r[|r| - 1])
  {
    if s != "" && Blank(s[|s| - 1]) then TrimEnd(s[..|s| - 1]) else s
  }

  function Strip(s: string): string {
    TrimEnd(TrimStart(s))
  }

  predicate DelimAt(s: string, i: int) {
    0 <= i && i + 1 < |s| && s[i] == ';' && s[i + 1] == '#'
  }

  predicate EndsDelim(s: string) {
    DelimAt(s, |s| - 2)
  }

  /** `str.split(";#")`: leftmost occurrences, not overlapping. */
  function Split(s: string): (parts: seq<string>)
    ensures parts != []
  {
    if s == "" then [""]
    else if DelimAt(s, 0) then [""] + Split(s[2..])
    else
      var rest := Split(s[1..]);
      [[s[0]] + rest[0]] + rest[1..]
  }

  /** `";#".join`. */
  function Join(parts: seq<string>): string {
    if parts == [] then "" else if |parts| == 1 then parts[0] else parts[0] + DELIM + Join(parts[1..])
  }

  ghost predicate Free(s: string) {
    forall i :: !DelimAt(s, i)
  }

  ghost predicate AllFree(parts: seq<string>) {
    forall k :: 0 <= k < |parts| ==> Free(parts[k])
  }

  lemma {:induction false} JoinFirst(head: string, parts: seq<string>)
    requires parts != []
    ensures Join([head + parts[0]] + parts[1..]) == head + Join(parts)
  {
    var longer := [head + parts[0]] + parts[1..];
    assert longer[1..] == parts[1..];
    if |parts| > 1 {
      assert head + parts[0] + DELIM + Join(parts[1..]) == head + (parts[0] + DELIM + Join(parts[1..]));
    }
  }

  /** Splitting loses nothing. */
  lemma {:induction false} JoinSplit(s: string)
    ensures Join(Split(s)) == s
    decreases |s|
  {
    if s != "" {
      if DelimAt(s, 0) {
        JoinSplit(s[2..]);
        assert Split(s)[1..] == Split(s[2..]);
        assert s == DELIM + s[2..];
      } else {
        JoinSplit(s[1..]);
        JoinFirst([s[0]], Split(s[1..]));
        assert s == [s[0]] + s[1..];
      }
    }
  }

  /** No part holds a delimiter. */
  lemma {:induction false} PartsAreFree(s: string)
    ensures AllFree(Split(s))
    decreases |s|
  {
    if s != "" {
      if DelimAt(s, 0) {
        PartsAreFree(s[2..]);
      } else {
        PartsAreFree(s[1..]);
        FirstPartLeads(s[1..]);
        var part := Split(s[1..])[0];
        forall i ensures !DelimAt([s[0]] + part, i) {
          if i > 0 {
            assert !DelimAt(part, i - 1);
          }
        }
      }
    }
  }

  lemma {:induction false} FirstPartLeads(s: string)
    ensures Split(s)[0] <= s
    decreases |s|
  {
    if s != "" && !DelimAt(s, 0) {
      FirstPartLeads(s[1..]);
    }
  }

  lemma {:induction false} SplitWhole(a: string)
    requires Free(a)
    ensures Split(a) == [a]
  {
    if a != "" {
      assert !DelimAt(a, 0);
      FreeTail(a, 1);
      SplitWhole(a[1..]);
      assert [a[0]] + a[1..] == a;
    }
  }

  lemma FreeTail(a: string, k: nat)
    requires Free(a) && k <= |a|
    ensures Free(a[k..]) && Free(a[..k])
  {
    forall i ensures !DelimAt(a[k..], i) {
      assert !DelimAt(a, k + i);
    }
    forall i ensures !DelimAt(a[..k], i) {
      assert !DelimAt(a, i);
    }
  }

  /** A part without delimiter is cut off whole, even when it ends in `;` or the next one
      starts with `#`. */
  lemma {:induction false} SplitFirst(a: string, rest: string)
    requires Free(a)
    ensures Split(a + DELIM + rest) == [a] + Split(rest)
  {
    var s := a + DELIM + rest;
    if a == "" {
      assert s[2..] == rest;
    } else {
      assert !DelimAt(a, 0);
      assert !DelimAt(s, 0);
      FreeTail(a, 1);
      assert s[1..] == a[1..] + DELIM + rest;
      SplitFirst(a[1..], rest);
      assert [a[0]] + a[1..] == a;
    }
  }

  /** Joining and splitting give the parts back exactly when no part holds a delimiter. */
  lemma {:induction false} SplitJoinExactly(parts: seq<string>)
    requires parts != []
    ensures Split(Join(parts)) == parts <==> AllFree(parts)
  {
    if AllFree(parts) {
      SplitJoin(parts);
    } else {
      PartsAreFree(Join(parts));
    }
  }

  lemma {:induction false} SplitJoin(parts: seq<string>)
    requires parts != [] && AllFree(parts)
    ensures Split(Join(parts)) == parts
  {
    if |parts| == 1 {
      SplitWhole(parts[0]);
    } else {
      SplitFirst(parts[0], Join(parts[1..]));
      SplitJoin(parts[1..]);
    }
  }

  lemma {:induction false} JoinLast(parts: seq<string>, last: string)
    requires parts != []
    ensures Join(parts + [last]) == Join(parts) + DELIM + last
  {
    if |parts| > 1 {
      assert (parts + [last])[1..] == parts[1..] + [last];
      JoinLast(parts[1..], last);
    }
  }

  /** Without the wrapping delimiters. */
  function Unwrap(v: string): string {
    var w := if DELIM <= v then v[|DELIM|..] else v;
    if EndsDelim(w) then w[..|w| - |DELIM|] else w
  }

  /** `split_multi`. */
  function SplitMulti(value: string): seq<string> {
    var v := Strip(value);
    if v == "" || Unwrap(v) == "" then [] else Split(Unwrap(v))
  }

  // ---- multi-choice ----

  function NonEmpty(parts: seq<string>): seq<string> {
    if parts == [] then [] else (if parts[0] != "" then [parts[0]] else []) + NonEmpty(parts[1..])
  }

  function DecodeMultiChoice(value: string): seq<string> {
    if Strip(value) == "" then [] else NonEmpty(SplitMulti(value))
  }

  lemma {:induction false} NonEmptyKeeps(parts: seq<string>)
    ensures forall k :: 0 <= k < |NonEmpty(parts)| ==> NonEmpty(parts)[k] != "" && NonEmpty(parts)[k] in parts
    ensures "" !in parts ==> NonEmpty(parts) == parts
  {
    if parts != [] {
      NonEmptyKeeps(parts[1..]);
    }
  }

  function Wrap(choices: seq<string>): string {
    DELIM + Join(choices) + DELIM
  }

  lemma StripIsIdentity(s: string)
    requires s != "" && !Blank(s[0]) && !Blank(s[|s| - 1])
    ensures Strip(s) == s
  {
  }

  lemma UnwrapBoth(text: string)
    ensures Unwrap(DELIM + text + DELIM) == text
  {
    assert (DELIM + text + DELIM)[2..] == text + DELIM;
    assert (text + DELIM)[..|text|] == text;
  }

  lemma {:induction false} SplitWrapped(choices: seq<string>)
    ensures Strip(Wrap(choices)) != ""
    ensures SplitMulti(Wrap(choices)) == if Join(choices) == "" then [] else Split(Join(choices))
  {
    var joined := Join(choices);
    StripIsIdentity(DELIM + joined + DELIM);
    UnwrapBoth(joined);
  }

  /** A wrapped list of choices is recovered exactly when every choice is a non-empty text
      without delimiter. */
  lemma MultiChoiceExactly(choices: seq<string>)
    ensures DecodeMultiChoice(Wrap(choices)) == choices <==> AllFree(choices) && "" !in choices
  {
    SplitWrapped(choices);
    NonEmptyKeeps(SplitMulti(Wrap(choices)));
    if choices != [] && AllFree(choices) && "" !in choices {
      assert choices[0] != "";
      SplitJoin(choices);
    } else {
      PartsAreFree(Join(choices));
    }
  }

  // ---- numbers ----

  function DigitChar(d: int): (c: char)
    requires 0 <= d < 10
    ensures IsDigit(c) && c as int == 0x30 + d
  {
    (0x30 + d) as char
  }

  predicate IsDigit(c: char) {
    0x30 <= c as int <= 0x39
  }

  function PrintNat(n: nat): (s: string)
    ensures s != "" && forall i :: 0 <= i < |s| ==> IsDigit(s[i])
  {
    if n < 10 then [DigitChar(n)] else PrintNat(n / 10) + [DigitChar(n % 10)]
  }

  function Print(n: int): (s: string)
    ensures s != "" && IsDigit(s[|s| - 1]) && (IsDigit(s[0]) || s[0] == '-')
  {
    if n < 0 then "-" + PrintNat(-n) else PrintNat(n)
  }

  /** Digits, with single underscores between them. */
  function ReadDigits(s: string): Option<int> {
    if s == "" || !IsDigit(s[|s| - 1]) then None else
      var d := s[|s| - 1] as int - 0x30;
      if |s| == 1 then Some(d) else
        var front := if s[|s| - 2] == '_' then s[..|s| - 2] else s[..|s| - 1];
        var high := ReadDigits(front);
        if high.Some? then Some(10 * high.value + d) else None
  }

  /** Python's `int(text)`; nothing stands for its `ValueError`. */
  function ReadInt(text: string): Option<int> {
    var s := Strip(text);
    if s == "" then None
    else if s[0] == '-' then
      var n := ReadDigits(s[1..]);
      if n.Some? then Some(-n.value) else None
    else
      var n := ReadDigits(if s[0] == '+' then s[1..] else s);
      if n.Some? then Some(n.value) else None
  }

  lemma {:induction false} ReadPrintNat(n: nat)
    ensures ReadDigits(PrintNat(n)) == Some(n)
  {
    if n >= 10 {
      ReadPrintNat(n / 10);
      var s := PrintNat(n);
      assert s[..|s| - 1] == PrintNat(n / 10);
      assert IsDigit(s[|s| - 2]);
    }
  }

  lemma ReadPrint(n: int)
    ensures ReadInt(Print(n)) == Some(n)
  {
    StripIsIdentity(Print(n));
    if n < 0 {
      ReadPrintNat(-n);
      assert Print(n)[1..] == PrintNat(-n);
    } else {
      ReadPrintNat(n);
      assert IsDigit(Print(n)[0]);
    }
  }

  lemma PrintIsFree(n: int)
    ensures Free(Print(n))
  {
    forall i ensures !DelimAt(Print(n), i) {
      if 0 <= i < |Print(n)| {
        PrintChar(n, i);
      }
    }
  }

  lemma PrintChar(n: int, i: nat)
    requires i < |Print(n)|
    ensures Print(n)[i] != ';' && !Blank(Print(n)[i])
  {
    if n < 0 && i > 0 {
      assert IsDigit(PrintNat(-n)[i - 1]);
    }
  }

  // ---- lookups ----

  datatype Ref = Ref(id: Option<int>, value: Option<string>)

  function ValueOf(text: string): Option<string> {
    if text == "" then None else Some(text)
  }

  function TextOf(value: Option<string>): string {
    if value.Some? then value.value else ""
  }

  /** `_pair`. */
  function PairOf(rawId: string, rawValue: string): Ref {
    var id := ReadInt(rawId);
    if id.None? then Ref(None, Some(Join([rawId, rawValue]))) else Ref(id, ValueOf(rawValue))
  }

  predicate AllDigits(s: string) {
    s != "" && forall i :: 0 <= i < |s| ==> IsDigit(s[i])
  }

  /** The tokens of one lookup; more than two when its text holds delimiters. */
  function LookupOf(tokens: seq<string>): Option<Ref> {
    if tokens == [] then None
    else if |tokens| == 1 then
      Some(if AllDigits(tokens[0]) then Ref(ReadInt(tokens[0]), None) else Ref(None, Some(tokens[0])))
    else if |tokens| > 2 then Some(PairOf(tokens[0], Join(tokens[1..])))
    else Some(PairOf(tokens[0], tokens[1]))
  }

  function DecodeLookup(value: string): Option<Ref> {
    if Strip(value) == "" then None else LookupOf(SplitMulti(value))
  }

  /** Two by two; an odd token at the end is dropped. */
  function Pairs(tokens: seq<string>): seq<Ref> {
    if |tokens| < 2 then [] else [PairOf(tokens[0], tokens[1])] + Pairs(tokens[2..])
  }

  function DecodeLookupMulti(value: string): seq<Ref> {
    if Strip(value) == "" then [] else Pairs(SplitMulti(value))
  }

  // ---- what they recover ----

  lemma UnwrapBehind(p: string, u: string)
    requires |p| >= 3 && p[0] != ';' && EndsDelim(p)
    ensures Unwrap(p + u) == if u == "" then p[..|p| - 2] else if EndsDelim(u) then p + u[..|u| - 2] else p + u
  {
    var s := p + u;
    assert s[0] == p[0] && DELIM[0] == ';';
    if u == "" {
      assert s == p;
    } else if EndsDelim(u) {
      assert s[|s| - 2] == u[|u| - 2] && s[|s| - 1] == u[|u| - 1];
      assert s[..|s| - 2] == p + u[..|u| - 2];
    }
  }

  /** What is split when a text follows a prefix that ends in a delimiter: blanks behind the text
      go, and then one delimiter at the end. */
  lemma {:induction false} Unwrapped(p: string, t: string)
    requires |p| >= 3 && !Blank(p[0]) && p[0] != ';' && EndsDelim(p)
    ensures var u := TrimEnd(t);
      && Strip(p + t) != ""
      && SplitMulti(p + t) == Split(if u == "" then p[..|p| - 2]
                                    else if EndsDelim(u) then p + u[..|u| - 2] else p + u)
  {
    TrimBehind(p, t);
    UnwrapBehind(p, TrimEnd(t));
  }

  lemma {:induction false} TrimBehind(p: string, t: string)
    requires p != "" && !Blank(p[|p| - 1])
    ensures TrimEnd(p + t) == p + TrimEnd(t)
    decreases |t|
  {
    if t == "" {
      assert p + t == p;
    } else if Blank(t[|t| - 1]) {
      assert (p + t)[..|p + t| - 1] == p + t[..|t| - 1];
      TrimBehind(p, t[..|t| - 1]);
    }
  }

  function EncodeLookup(id: int, value: Option<string>): string {
    Print(id) + DELIM + TextOf(value)
  }

  /** Blanks behind a text, and one delimiter behind that, are lost. */
  function Trimmed(text: string): string {
    var u := TrimEnd(text);
    if EndsDelim(u) then u[..|u| - 2] else u
  }

  lemma LoneId(id: int)
    ensures LookupOf(Split(Print(id))) == Some(if id < 0 then Ref(None, Some(Print(id))) else Ref(Some(id), None))
  {
    PrintIsFree(id);
    SplitWhole(Print(id));
    ReadPrint(id);
  }

  lemma {:induction false} IdAndText(id: int, text: string)
    ensures LookupOf(Split(Print(id) + DELIM + text)) == Some(Ref(Some(id), ValueOf(text)))
  {
    PrintIsFree(id);
    ReadPrint(id);
    SplitFirst(Print(id), text);
    var tokens := [Print(id)] + Split(text);
    assert tokens[1..] == Split(text);
    JoinSplit(text);
  }

  /** What a single lookup reads back, for every id and text. */
  lemma LookupReads(id: int, value: Option<string>)
    ensures DecodeLookup(EncodeLookup(id, value)) ==
            Some(if TrimEnd(TextOf(value)) == "" && id < 0 then Ref(None, Some(Print(id)))
                 else Ref(Some(id), ValueOf(Trimmed(TextOf(value)))))
  {
    var p, t := Print(id) + DELIM, TextOf(value);
    PrintChar(id, 0);
    Unwrapped(p, t);
    if TrimEnd(t) == "" {
      assert p[..|p| - 2] == Print(id);
      LoneId(id);
    } else {
      IdAndText(id, Trimmed(t));
    }
  }

  predicate EndsBlank(s: string) {
    s != "" && Blank(s[|s| - 1])
  }

  /** A single lookup is recovered exactly when its text is not empty and ends in neither a blank
      nor a delimiter, delimiters inside it included; a missing text only with an id that is not
      negative. */
  lemma LookupExactly(id: int, value: Option<string>)
    ensures DecodeLookup(EncodeLookup(id, value)) == Some(Ref(Some(id), value)) <==>
            if value.None? then id >= 0
            else value.value != "" && !EndsBlank(value.value) && !EndsDelim(value.value)
  {
    LookupReads(id, value);
  }

  ghost predicate HaveIds(refs: seq<Ref>) {
    forall k :: 0 <= k < |refs| ==> refs[k].id.Some?
  }

  /** The tokens of a list of references. */
  function Tokens(refs: seq<Ref>): seq<string>
    requires HaveIds(refs)
  {
    if refs == [] then [] else [Print(refs[0].id.value), TextOf(refs[0].value)] + Tokens(refs[1..])
  }

  function EncodeLookupMulti(refs: seq<Ref>): string
    requires HaveIds(refs)
  {
    Join(Tokens(refs))
  }

  /** A value that a token can stand for. */
  ghost predicate Clean(ref: Ref) {
    ref.value.Some? ==> ref.value.value != "" && Free(ref.value.value)
  }

  ghost predicate AllClean(refs: seq<Ref>) {
    forall k :: 0 <= k < |refs| ==> Clean(refs[k])
  }

  lemma {:induction false} PairsFirst(ref: Ref, rest: seq<string>)
    requires ref.id.Some? && Clean(ref)
    ensures Pairs([Print(ref.id.value), TextOf(ref.value)] + rest) == [ref] + Pairs(rest)
  {
    var tokens := [Print(ref.id.value), TextOf(ref.value)] + rest;
    ReadPrint(ref.id.value);
    assert tokens[2..] == rest;
  }

  lemma Associate<T>(a: seq<T>, b: seq<T>, c: seq<T>)
    ensures (a + b) + c == a + (b + c)
  {
  }

  lemma {:induction false} PairsOfTokens(refs: seq<Ref>, more: seq<string>)
    requires HaveIds(refs) && AllClean(refs)
    ensures Pairs(Tokens(refs) + more) == refs + Pairs(more)
    decreases |refs|
  {
    if refs == [] {
      assert Tokens(refs) + more == more;
    } else {
      var first, rest := [Print(refs[0].id.value), TextOf(refs[0].value)], Tokens(refs[1..]);
      PairsOfTokens(refs[1..], more);
      PairsFirst(refs[0], rest + more);
      Associate(first, rest, more);
      Associate([refs[0]], refs[1..], Pairs(more));
      assert refs == [refs[0]] + refs[1..];
    }
  }

  lemma {:induction false} TokensAreFree(refs: seq<Ref>)
    requires HaveIds(refs) && AllClean(refs)
    ensures AllFree(Tokens(refs))
  {
    if refs != [] {
      PrintIsFree(refs[0].id.value);
      TokensAreFree(refs[1..]);
    }
  }

  lemma {:induction false} TokensLast(refs: seq<Ref>, last: Ref)
    requires HaveIds(refs) && last.id.Some?
    ensures HaveIds(refs + [last])
    ensures Tokens(refs + [last]) == Tokens(refs) + [Print(last.id.value)] + [TextOf(last.value)]
  {
    if refs != [] {
      assert (refs + [last])[1..] == refs[1..] + [last];
      TokensLast(refs[1..], last);
    } else {
      assert refs + [last] == [last];
    }
  }

  lemma {:induction false} HeadIsPrinted(refs: seq<Ref>, id: int)
    requires HaveIds(refs)
    ensures var s := Join(Tokens(refs) + [Print(id)]); s != "" && !Blank(s[0]) && s[0] != ';'
  {
    var parts := Tokens(refs) + [Print(id)];
    if refs == [] {
      assert parts == [Print(id)];
      PrintChar(id, 0);
    } else {
      PrintChar(refs[0].id.value, 0);
      assert parts[0] == Print(refs[0].id.value);
    }
  }

  lemma {:induction false} WithoutLastText(refs: seq<Ref>, id: int)
    requires HaveIds(refs) && AllClean(refs)
    ensures Pairs(Split(Join(Tokens(refs) + [Print(id)]))) == refs
  {
    TokensAreFree(refs);
    PrintIsFree(id);
    SplitJoin(Tokens(refs) + [Print(id)]);
    PairsOfTokens(refs, [Print(id)]);
  }

  lemma {:induction false} WithLastText(refs: seq<Ref>, id: int, text: string)
    requires HaveIds(refs) && AllClean(refs) && text != "" && Free(text)
    ensures Pairs(Split(Join(Tokens(refs) + [Print(id)]) + DELIM + text)) == refs + [Ref(Some(id), Some(text))]
  {
    var parts := Tokens(refs) + [Print(id)];
    TokensAreFree(refs);
    PrintIsFree(id);
    JoinLast(parts, text);
    SplitJoin(parts + [text]);
    ReadPrint(id);
    assert parts + [text] == Tokens(refs) + [Print(id), text];
    PairsOfTokens(refs, [Print(id), text]);
    assert Pairs([Print(id), text]) == [PairOf(Print(id), text)];
  }

  /** What a list of references reads back: the last one loses the blanks behind its text, and is
      lost itself when nothing but blanks follows its id. */
  lemma LookupMultiReads(refs: seq<Ref>, last: Ref)
    requires HaveIds(refs) && AllClean(refs) && last.id.Some? && Clean(last)
    ensures HaveIds(refs + [last])
    ensures DecodeLookupMulti(EncodeLookupMulti(refs + [last])) ==
            var u := TrimEnd(TextOf(last.value)); if u == "" then refs else refs + [last.(value := Some(u))]
  {
    var id, t := last.id.value, TextOf(last.value);
    TokensLast(refs, last);
    var joined, u := Join(Tokens(refs) + [Print(id)]), TrimEnd(t);
    JoinLast(Tokens(refs) + [Print(id)], t);
    HeadIsPrinted(refs, id);
    Unwrapped(joined + DELIM, t);
    if u == "" {
      assert (joined + DELIM)[..|joined + DELIM| - 2] == joined;
      WithoutLastText(refs, id);
    } else {
      FreeTail(t, |u|);
      assert t[..|u|] == u;
      assert !EndsDelim(u);
      WithLastText(refs, id, u);
    }
  }

  /** Every decoded reference that has an id has a clean value. */
  lemma {:induction false} PairsAreClean(tokens: seq<string>)
    requires AllFree(tokens)
    ensures forall k :: 0 <= k < |Pairs(tokens)| && Pairs(tokens)[k].id.Some? ==> Clean(Pairs(tokens)[k])
  {
    if |tokens| >= 2 {
      PairsAreClean(tokens[2..]);
    }
  }

  lemma DecodedAreClean(value: string)
    ensures var refs := DecodeLookupMulti(value); HaveIds(refs) ==> AllClean(refs)
  {
    var tokens := SplitMulti(value);
    assert AllFree(tokens) by {
      var v := Strip(value);
      if v != "" {
        PartsAreFree(Unwrap(v));
      }
    }
    PairsAreClean(tokens);
  }

  predicate EndsWell(ref: Ref) {
    ref.value.Some? && ref.value.value != "" && !EndsBlank(ref.value.value)
  }

  lemma LastDecides(refs: seq<Ref>, last: Ref)
    requires HaveIds(refs) && AllClean(refs) && last.id.Some? && Clean(last)
    ensures HaveIds(refs + [last])
    ensures DecodeLookupMulti(EncodeLookupMulti(refs + [last])) == refs + [last] <==> EndsWell(last)
  {
    LookupMultiReads(refs, last);
    var u := TrimEnd(TextOf(last.value));
    if u == "" {
      assert |refs + [last]| != |refs|;
    } else {
      assert (refs + [last])[|refs|] == last && (refs + [last.(value := Some(u))])[|refs|].value == Some(u);
    }
  }

  /** A list of references is recovered exactly when every text is free of delimiters, an empty
      one counting as missing, and the last one is there and does not end in a blank. */
  lemma LookupMultiExactly(refs: seq<Ref>)
    requires HaveIds(refs)
    ensures DecodeLookupMulti(EncodeLookupMulti(refs)) == refs <==>
            AllClean(refs) && (refs == [] || EndsWell(refs[|refs| - 1]))
  {
    if !AllClean(refs) {
      DecodedAreClean(EncodeLookupMulti(refs));
    } else if refs == [] {
      assert EncodeLookupMulti(refs) == "";
    } else {
      var front, last := refs[..|refs| - 1], refs[|refs| - 1];
      assert front + [last] == refs;
      LastDecides(front, last);
    }
  }

  // ---- by the characters ----

  /** The delimiter, wherever it is. */
  lemma DelimiterIs(s: string, i: nat)
    ensures DELIM == ";#"
    ensures DelimAt(s, i) <==> i + 2 <= |s| && s[i..i + 2] == ";#"
  {
    if i + 2 <= |s| {
      assert s[i..i + 2] == [s[i], s[i + 1]];
    }
  }

  /** White space in ASCII, and no other ASCII character. */
  lemma BlankInAscii(c: char)
    requires c as int < 128
    ensures Blank(c) <==> c in " \t\n\r" || c as int in {0x0b, 0x0c, 0x1c, 0x1d, 0x1e, 0x1f}
  {
    assert " \t\n\r" == [' ', '\t', '\n', '\r'];
  }

  /** These digits are this number, in the decimal system. */
  ghost predicate Decimal(s: string, n: int) {
    if s == "" then n == 0
    else '0' <= s[|s| - 1] <= '9' && n >= 0 && n % 10 == (s[|s| - 1] - '0') as int && Decimal(s[..|s| - 1], n / 10)
  }

  lemma {:induction false} PrintIsDecimal(n: nat)
    ensures Decimal(PrintNat(n), n)
  {
    var s := PrintNat(n);
    if n >= 10 {
      PrintIsDecimal(n / 10);
      assert s[..|s| - 1] == PrintNat(n / 10);
    } else {
      assert s[..0] == "";
    }
  }

  /** Numbers as they are written out, and how they may be written for `int`. */
  lemma NumbersAreRead(n: nat)
    ensures Print(n) == PrintNat(n) && (n > 0 ==> Print(-(n as int)) == "-" + PrintNat(n))
    ensures ReadInt("+" + PrintNat(n)) == Some(n)
  {
    ReadPrintNat(n);
    var s := "+" + PrintNat(n);
    StripIsIdentity(s);
    assert s[1..] == PrintNat(n);
  }

  /** A value without a delimiter: digits are an id without a text, anything else a text without an id. */
  lemma BareLookup(text: string)
    requires Free(text) && text != "" && !Blank(text[0]) && !Blank(text[|text| - 1])
    ensures DecodeLookup(text) == Some(if AllDigits(text) then Ref(ReadInt(text), None) else Ref(None, Some(text)))
  {
    StripIsIdentity(text);
    assert !DelimAt(text, 0) && !DelimAt(text, |text| - 2);
    assert DELIM <= text ==> DelimAt(text, 0);
    SplitWhole(text);
  }

  /** Where the id does not parse, the whole is a text, delimiter included. */
  lemma UnreadableId(rawId: string, rawValue: string)
    ensures ReadInt(rawId).None? ==> PairOf(rawId, rawValue) == Ref(None, Some(rawId + ";#" + rawValue))
    ensures ReadInt(rawId).Some? ==>
      PairOf(rawId, rawValue) == Ref(ReadInt(rawId), if rawValue == "" then None else Some(rawValue))
  {
    assert [rawId, rawValue][1..] == [rawValue] && Join([rawValue]) == rawValue;
  }

  /** An odd token at the end stands for nothing. */
  lemma {:induction false} OddTokenIsDropped(tokens: seq<string>)
    requires |tokens| % 2 == 1
    ensures Pairs(tokens) == Pairs(tokens[..|tokens| - 1])
    decreases |tokens|
  {
    if |tokens| >= 2 {
      OddTokenIsDropped(tokens[2..]);
      assert tokens[..|tokens| - 1][2..] == tokens[2..][..|tokens[2..]| - 1];
    }
  }
}
