/**
 * `parse_ntlm_challenge` (src/spconnect/transport.py:273-325): the CHALLENGE_MESSAGE of
 * [MS-NLMP] section 2.2.1.2 and the AV_PAIR list of section 2.2.2.1, read from untrusted
 * bytes. Decoding bytes to text is the library's: `decode` stands for the decoded text with
 * surrounding blanks removed, or nothing.
 */
module Ntlm {
  import opened Options

  type Byte = b: int | 0 <= b < 256

  type Decoder = (seq<Byte>, bool) -> Option<string>

  /** An attribute and the bytes of its value. */
  datatype Av = Av(id: int, value: seq<Byte>)

  datatype Target = Target(netbiosDomain: Option<string>, dnsDomain: Option<string>,
                           netbiosComputer: Option<string>, dnsComputer: Option<string>)

  const SIGNATURE: seq<Byte> := [0x4e, 0x54, 0x4c, 0x4d, 0x53, 0x53, 0x50, 0]
  const AV_NB_COMPUTER := 1
  const AV_NB_DOMAIN := 2
  const AV_DNS_COMPUTER := 3
  const AV_DNS_DOMAIN := 4

  // ---- little-endian numbers ----

  function U16(blob: seq<Byte>, at: nat): (n: int)
    requires at + 2 <= |blob|
    ensures 0 <= n < 0x10000
  {
    (blob[at] as int) + 0x100 * (blob[at + 1] as int)
  }

  function U32(blob: seq<Byte>, at: nat): (n: int)
    requires at + 4 <= |blob|
    ensures 0 <= n < 0x1_0000_0000
  {
    U16(blob, at) + 0x10000 * U16(blob, at + 2)
  }

  function Le16(n: int): seq<Byte>
    requires 0 <= n < 0x10000
  {
    [n % 0x100, n / 0x100]
  }

  // ---- the attribute list ----

  predicate IsPair(av: Av) {
    0 < av.id < 0x10000 && |av.value| < 0x10000
  }

  predicate ArePairs(avs: seq<Av>) {
    forall i :: 0 <= i < |avs| ==> IsPair(avs[i])
  }

  function EncodeOne(av: Av): seq<Byte>
    requires IsPair(av)
  {
    Le16(av.id) + Le16(|av.value|) + av.value
  }

  function Encode(avs: seq<Av>): seq<Byte>
    requires ArePairs(avs)
  {
    if avs == [] then [] else EncodeOne(avs[0]) + Encode(avs[1..])
  }

  /** A non-empty text, or nothing. */
  function Text(decode: Decoder, value: seq<Byte>, unicode: bool): Option<string> {
    if value == [] then None else
      var text := decode(value, unicode);
      if text.Some? && text.value != "" then text else None
  }

  /** What is found under an id: of several readable values the last. */
  function Found(decode: Decoder, avs: seq<Av>, id: int): Option<string> {
    if avs == [] then None
    else OrElse(Found(decode, avs[1..], id), if avs[0].id == id then Text(decode, avs[0].value, true) else None)
  }

  function OrElse(a: Option<string>, b: Option<string>): Option<string> {
    if a.Some? then a else b
  }

  // ---- the message ----

  predicate IsChallenge(blob: seq<Byte>) {
    |blob| >= 48 && blob[..8] == SIGNATURE && U32(blob, 8) == 2
  }

  function TextAt(decode: Decoder, blob: seq<Byte>, offset: nat, length: nat, unicode: bool): Option<string> {
    if length == 0 || offset + length > |blob| then None
    else Text(decode, blob[offset..offset + length], unicode)
  }

  /** What the cursor loop reads between two offsets: it stops at the end marker, at a pair that
      runs over the end, or when no header fits any more. */
  function Region(blob: seq<Byte>, cursor: nat, end: nat): seq<Av>
    requires end <= |blob|
    decreases end - cursor
  {
    if cursor + 4 > end then [] else
      var id, length := U16(blob, cursor), U16(blob, cursor + 2);
      if id == 0 || cursor + 4 + length > end then []
      else [Av(id, blob[cursor + 4..cursor + 4 + length])] + Region(blob, cursor + 4 + length, end)
  }

  /** Where the attribute list ends: inside the message, whatever its header says. */
  function InfoEnd(blob: seq<Byte>): (end: nat)
    requires |blob| >= 48
    ensures end <= |blob|
  {
    var to := U32(blob, 44) + U16(blob, 40);
    if to <= |blob| then to else |blob|
  }

  /** `flags & 0x1`. */
  function TargetName(decode: Decoder, blob: seq<Byte>): Option<string>
    requires |blob| >= 48
  {
    TextAt(decode, blob, U32(blob, 16), U16(blob, 12), U32(blob, 20) % 2 == 1)
  }

  function TargetOf(decode: Decoder, blob: seq<Byte>): Target
    requires |blob| >= 48
  {
    var avs := Region(blob, U32(blob, 44), InfoEnd(blob));
    Target(OrElse(Found(decode, avs, AV_NB_DOMAIN), TargetName(decode, blob)), Found(decode, avs, AV_DNS_DOMAIN),
           Found(decode, avs, AV_NB_COMPUTER), Found(decode, avs, AV_DNS_COMPUTER))
  }

  const NOTHING := Target(None, None, None, None)

  function Put(found: map<int, string>, id: int, text: Option<string>): map<int, string> {
    if text.Some? then found[id := text.value] else found
  }

  /** What the loop still does from a cursor on, as a recursion. */
  function Gather(decode: Decoder, blob: seq<Byte>, cursor: nat, end: nat, found: map<int, string>): map<int, string>
    requires end <= |blob|
    decreases end - cursor
  {
    if cursor + 4 > end then found else
      var id, length := U16(blob, cursor), U16(blob, cursor + 2);
      if id == 0 || cursor + 4 + length > end then found
      else Gather(decode, blob, cursor + 4 + length, end,
                  Put(found, id, TextAt(decode, blob, cursor + 4, length, true)))
  }

  lemma {:induction false} GatherFinds(decode: Decoder, blob: seq<Byte>, cursor: nat, end: nat,
                                       found: map<int, string>, id: int)
    requires end <= |blob|
    ensures Lookup(Gather(decode, blob, cursor, end, found), id) ==
            OrElse(Found(decode, Region(blob, cursor, end), id), Lookup(found, id))
    decreases end - cursor
  {
    if cursor + 4 <= end {
      var key, length := U16(blob, cursor), U16(blob, cursor + 2);
      if key != 0 && cursor + 4 + length <= end {
        var text := TextAt(decode, blob, cursor + 4, length, true);
        GatherFinds(decode, blob, cursor + 4 + length, end, Put(found, key, text), id);
        FoundFirst(decode, Av(key, blob[cursor + 4..cursor + 4 + length]), Region(blob, cursor + 4 + length, end), id);
      }
    }
  }

  lemma {:induction false} FoundFirst(decode: Decoder, av: Av, rest: seq<Av>, id: int)
    ensures Found(decode, [av] + rest, id) ==
            OrElse(Found(decode, rest, id), if av.id == id then Text(decode, av.value, true) else None)
  {
    assert ([av] + rest)[1..] == rest;
  }

  /** The attribute loop: bounds-checked, and it ends on any bytes. */
  method ReadPairs(blob: seq<Byte>, offset: nat, end: nat, decode: Decoder) returns (found: map<int, string>)
    requires end <= |blob|
    ensures forall id :: Lookup(found, id) == Found(decode, Region(blob, offset, end), id)
  {
    var cursor := offset;
    found := map[];
    while cursor + 4 <= end
      invariant Gather(decode, blob, cursor, end, found) == Gather(decode, blob, offset, end, map[])
      decreases end - cursor
    {
      var id, length := U16(blob, cursor), U16(blob, cursor + 2);
      cursor := cursor + 4;
      if id == 0 || cursor + length > end {
        break;
      }
      var value := TextAt(decode, blob, cursor, length, true);
      if value.Some? {
        found := found[id := value.value];
      }
      cursor := cursor + length;
    }
    forall id ensures Lookup(found, id) == Found(decode, Region(blob, offset, end), id) {
      GatherFinds(decode, blob, offset, end, map[], id);
    }
  }

  /** The parser: it ends on every byte string and never reads outside it. */
  method ParseChallenge(blob: seq<Byte>, decode: Decoder) returns (r: Option<Target>)
    ensures r.Some? <==> IsChallenge(blob) && TargetOf(decode, blob) != NOTHING
    ensures r.Some? ==> r.value == TargetOf(decode, blob)
  {
    if |blob| < 48 || blob[..8] != SIGNATURE {
      return None;
    }
    if U32(blob, 8) != 2 {
      return None;
    }
    var unicode := U32(blob, 20) % 2 == 1;
    var targetName := TextAt(decode, blob, U32(blob, 16), U16(blob, 12), unicode);
    var infoLength, infoOffset := U16(blob, 40), U32(blob, 44);
    var end := if infoOffset + infoLength <= |blob| then infoOffset + infoLength else |blob|;
    var found := ReadPairs(blob, infoOffset, end, decode);
    var target := Target(OrElse(Lookup(found, AV_NB_DOMAIN), targetName), Lookup(found, AV_DNS_DOMAIN),
                         Lookup(found, AV_NB_COMPUTER), Lookup(found, AV_DNS_COMPUTER));
    return if target == NOTHING then None else Some(target);
  }

  function Lookup(found: map<int, string>, id: int): Option<string> {
    if id in found then Some(found[id]) else None
  }

  // ---- round trip ----

  /** The bytes at `at` are these. */
  ghost predicate Carries(blob: seq<Byte>, at: nat, bytes: seq<Byte>) {
    at + |bytes| <= |blob| && forall i :: 0 <= i < |bytes| ==> blob[at + i] == bytes[i]
  }

  lemma CarriesBoth(blob: seq<Byte>, at: nat, a: seq<Byte>, b: seq<Byte>)
    requires Carries(blob, at, a + b)
    ensures Carries(blob, at, a) && Carries(blob, at + |a|, b)
  {
    forall i | 0 <= i < |a| ensures blob[at + i] == a[i] {
      assert (a + b)[i] == a[i];
    }
    forall i | 0 <= i < |b| ensures blob[at + |a| + i] == b[i] {
      assert (a + b)[|a| + i] == b[i];
    }
  }

  lemma CarriesSlice(blob: seq<Byte>, at: nat, bytes: seq<Byte>)
    requires Carries(blob, at, bytes)
    ensures blob[at..at + |bytes|] == bytes
  {
  }

  lemma CarriesNumber(blob: seq<Byte>, at: nat, n: int)
    requires 0 <= n < 0x10000 && Carries(blob, at, Le16(n))
    ensures U16(blob, at) == n
  {
    var bytes := Le16(n);
    assert bytes[0] == n % 0x100 && bytes[1] == n / 0x100;
    assert blob[at + 0] == bytes[0] && blob[at + 1] == bytes[1];
  }

  /** A written pair is read if it fits, and the cursor moves right behind it. */
  lemma RegionFirst(blob: seq<Byte>, at: nat, av: Av, end: nat)
    requires IsPair(av) && Carries(blob, at, EncodeOne(av)) && end <= |blob|
    ensures var next := at + 4 + |av.value|;
      Region(blob, at, end) == if next <= end then [av] + Region(blob, next, end) else []
  {
    CarriesBoth(blob, at, Le16(av.id) + Le16(|av.value|), av.value);
    CarriesBoth(blob, at, Le16(av.id), Le16(|av.value|));
    CarriesNumber(blob, at, av.id);
    CarriesNumber(blob, at + 2, |av.value|);
    CarriesSlice(blob, at + 4, av.value);
  }

  /** A written list starts with its first pair, and goes on with the others. */
  lemma {:induction false} CarriesFirst(blob: seq<Byte>, at: nat, avs: seq<Av>, tail: seq<Byte>)
    requires ArePairs(avs) && avs != [] && Carries(blob, at, Encode(avs) + tail)
    ensures Carries(blob, at, EncodeOne(avs[0]))
    ensures Carries(blob, at + 4 + |avs[0].value|, Encode(avs[1..]) + tail)
  {
    EncodeFirst(avs, tail);
    CarriesBoth(blob, at, EncodeOne(avs[0]), Encode(avs[1..]) + tail);
  }

  lemma {:induction false} EncodeFirst(avs: seq<Av>, tail: seq<Byte>)
    requires ArePairs(avs) && avs != []
    ensures Encode(avs) + tail == EncodeOne(avs[0]) + (Encode(avs[1..]) + tail)
    ensures |EncodeOne(avs[0])| == 4 + |avs[0].value|
  {
  }

  lemma {:induction false} RegionMarked(blob: seq<Byte>, at: nat, marker: seq<Byte>, end: nat)
    requires Carries(blob, at, [] + marker) && end <= |blob| && marker == [0, 0, 0, 0]
    ensures Region(blob, at, end) == []
  {
    CarriesBoth(blob, at, [], marker);
    assert marker == Le16(0) + Le16(0);
    CarriesBoth(blob, at, Le16(0), Le16(0));
    CarriesNumber(blob, at, 0);
  }

  /** Reading a written list gives it back, wherever it lies and whatever follows its end
      marker. */
  lemma {:induction false} RegionRoundTrip(blob: seq<Byte>, at: nat, avs: seq<Av>, marker: seq<Byte>, end: nat)
    requires ArePairs(avs) && Carries(blob, at, Encode(avs) + marker) && marker == [0, 0, 0, 0]
    requires at + |Encode(avs)| <= end <= |blob|
    ensures Region(blob, at, end) == avs
    decreases |avs|
  {
    if avs == [] {
      RegionMarked(blob, at, marker, end);
    } else {
      var next := at + 4 + |avs[0].value|;
      CarriesFirst(blob, at, avs, marker);
      RegionFirst(blob, at, avs[0], end);
      RegionRoundTrip(blob, next, avs[1..], marker, end);
      assert Region(blob, at, end) == [avs[0]] + avs[1..];
    }
  }

  /** The pairs that lie wholly in the first `n` bytes. */
  function Cut(avs: seq<Av>, n: int): seq<Av> {
    if avs == [] || n < 4 + |avs[0].value| then [] else [avs[0]] + Cut(avs[1..], n - 4 - |avs[0].value|)
  }

  /** They are as many leading pairs as have room. */
  lemma {:induction false} CutIsLongestPrefix(avs: seq<Av>, n: nat)
    requires ArePairs(avs)
    ensures Cut(avs, n) <= avs && |Encode(Cut(avs, n))| <= n
    ensures Cut(avs, n) == avs || |Encode(avs[..|Cut(avs, n)| + 1])| > n
  {
    if avs != [] && n >= 4 + |avs[0].value| {
      var rest := Cut(avs[1..], n - 4 - |avs[0].value|);
      CutIsLongestPrefix(avs[1..], n - 4 - |avs[0].value|);
      assert Cut(avs, n)[1..] == rest;
      if Cut(avs, n) != avs {
        assert rest != avs[1..];
        assert avs[..|rest| + 2][1..] == avs[1..][..|rest| + 1];
      }
    }
  }

  /** A list that is cut off anywhere still gives the pairs before the cut, and no others. */
  lemma {:induction false} CutListIsPrefix(blob: seq<Byte>, at: nat, avs: seq<Av>, tail: seq<Byte>, end: nat)
    requires ArePairs(avs) && Carries(blob, at, Encode(avs) + tail)
    requires at <= end <= at + |Encode(avs)|
    ensures Region(blob, at, end) == Cut(avs, end - at)
    decreases |avs|
  {
    if avs != [] {
      var next := at + 4 + |avs[0].value|;
      CarriesFirst(blob, at, avs, tail);
      EncodeFirst(avs, []);
      RegionFirst(blob, at, avs[0], end);
      if next <= end {
        CutListIsPrefix(blob, next, avs[1..], tail, end);
        assert Cut(avs, end - at) == [avs[0]] + Cut(avs[1..], end - next);
      } else {
        assert Cut(avs, end - at) == [];
      }
    }
  }

  ghost predicate DistinctIds(avs: seq<Av>) {
    forall i, j :: 0 <= i < j < |avs| ==> avs[i].id != avs[j].id
  }

  /** With distinct ids, every readable value is found under its id. */
  lemma {:induction false} FoundIsThere(decode: Decoder, avs: seq<Av>, i: nat)
    requires DistinctIds(avs) && i < |avs|
    ensures Found(decode, avs, avs[i].id) == Text(decode, avs[i].value, true)
  {
    if i > 0 {
      FoundIsThere(decode, avs[1..], i - 1);
    } else {
      NotFoundElsewhere(decode, avs[1..], avs[0].id);
    }
  }

  lemma {:induction false} NotFoundElsewhere(decode: Decoder, avs: seq<Av>, id: int)
    requires forall i :: 0 <= i < |avs| ==> avs[i].id != id
    ensures Found(decode, avs, id).None?
  {
    if avs != [] {
      NotFoundElsewhere(decode, avs[1..], id);
    }
  }

  /** Every attribute of a well-formed message is recovered: the value under each of the four
      known ids is in its field of the target, for whatever texts the payloads decode to. */
  lemma {:induction false} ChallengeRoundTrip(decode: Decoder, blob: seq<Byte>, avs: seq<Av>, i: nat)
    requires IsChallenge(blob) && ArePairs(avs) && DistinctIds(avs) && i < |avs|
    requires Carries(blob, U32(blob, 44), Encode(avs) + [0, 0, 0, 0])
    requires U16(blob, 40) >= |Encode(avs)|
    requires Text(decode, avs[i].value, true).Some?
    ensures var t, text := TargetOf(decode, blob), Text(decode, avs[i].value, true);
      && (avs[i].id == AV_NB_DOMAIN ==> t.netbiosDomain == text)
      && (avs[i].id == AV_DNS_DOMAIN ==> t.dnsDomain == text)
      && (avs[i].id == AV_NB_COMPUTER ==> t.netbiosComputer == text)
      && (avs[i].id == AV_DNS_COMPUTER ==> t.dnsComputer == text)
  {
    RegionRoundTrip(blob, U32(blob, 44), avs, [0, 0, 0, 0], InfoEnd(blob));
    FoundIsThere(decode, avs, i);
  }

  // ---- a whole message, as a server writes it ----

  function Le32(n: int): (s: seq<Byte>)
    requires 0 <= n < 0x1_0000_0000
    ensures |s| == 4
  {
    Le16(n % 0x10000) + Le16(n / 0x10000)
  }

  /** A payload field: its length, twice, and its offset. */
  function Field(length: int, offset: int): (s: seq<Byte>)
    requires 0 <= length < 0x10000 && 0 <= offset < 0x1_0000_0000
    ensures |s| == 8
  {
    Le16(length) + Le16(length) + Le32(offset)
  }

  function Ascii(text: string): (s: seq<Byte>)
    requires forall i :: 0 <= i < |text| ==> text[i] as int < 128
    ensures |s| == |text|
  {
    seq(|text|, i requires 0 <= i < |text| => text[i] as int)
  }

  /** The header: signature, message type, target name, flags, server challenge and reserved bytes, target
      information. */
  function Header(name: seq<Byte>, flags: int, challenge: seq<Byte>, info: int): (s: seq<Byte>)
    requires |name| < 0x10000 && 0 <= flags < 0x1_0000_0000 && |challenge| == 16 && 0 <= info < 0x10000
    ensures |s| == 48
  {
    (Ascii("NTLMSSP") + [0]) + (Le32(2) + (Field(|name|, 48) + (Le32(flags) + (challenge + Field(info, 48 + |name|)))))
  }

  /** The header, the target name, and the attribute list with its end marker. */
  function Message(name: seq<Byte>, flags: int, challenge: seq<Byte>, avs: seq<Av>): seq<Byte>
    requires |name| < 0x10000 && 0 <= flags < 0x1_0000_0000 && |challenge| == 16
    requires ArePairs(avs) && |Encode(avs)| + 4 < 0x10000
  {
    Header(name, flags, challenge, |Encode(avs)| + 4) + (name + (Encode(avs) + [0, 0, 0, 0]))
  }

  lemma CarriesAll(blob: seq<Byte>)
    ensures Carries(blob, 0, blob)
  {
  }

  lemma CarriesLong(blob: seq<Byte>, at: nat, n: int)
    requires 0 <= n < 0x1_0000_0000 && Carries(blob, at, Le32(n))
    ensures U32(blob, at) == n
  {
    CarriesBoth(blob, at, Le16(n % 0x10000), Le16(n / 0x10000));
    CarriesNumber(blob, at, n % 0x10000);
    CarriesNumber(blob, at + 2, n / 0x10000);
  }

  lemma CarriesField(blob: seq<Byte>, at: nat, length: int, offset: int)
    requires 0 <= length < 0x10000 && 0 <= offset < 0x1_0000_0000 && Carries(blob, at, Field(length, offset))
    ensures U16(blob, at) == length && U32(blob, at + 4) == offset
  {
    CarriesBoth(blob, at, Le16(length) + Le16(length), Le32(offset));
    CarriesBoth(blob, at, Le16(length), Le16(length));
    CarriesNumber(blob, at, length);
    CarriesLong(blob, at + 4, offset);
  }

  /** The header's fields are where the parser looks for them. */
  lemma HeaderIsRead(blob: seq<Byte>, name: seq<Byte>, flags: int, challenge: seq<Byte>, info: int)
    requires |name| < 0x10000 && 0 <= flags < 0x1_0000_0000 && |challenge| == 16 && 0 <= info < 0x10000
    requires Carries(blob, 0, Header(name, flags, challenge, info))
    ensures IsChallenge(blob)
    ensures U16(blob, 12) == |name| && U32(blob, 16) == 48 && U32(blob, 20) == flags
    ensures U16(blob, 40) == info && U32(blob, 44) == 48 + |name|
  {
    var last := challenge + Field(info, 48 + |name|);
    var third := Le32(flags) + last;
    var second := Field(|name|, 48) + third;
    var signature := Ascii("NTLMSSP") + [0];
    CarriesBoth(blob, 0, signature, Le32(2) + second);
    CarriesBoth(blob, 8, Le32(2), second);
    CarriesBoth(blob, 12, Field(|name|, 48), third);
    CarriesBoth(blob, 20, Le32(flags), last);
    CarriesBoth(blob, 24, challenge, Field(info, 48 + |name|));
    CarriesSlice(blob, 0, signature);
    assert signature == SIGNATURE;
    CarriesLong(blob, 8, 2);
    CarriesField(blob, 12, |name|, 48);
    CarriesLong(blob, 20, flags);
    CarriesField(blob, 40, info, 48 + |name|);
  }

  /** The bytes are there and decode to a text that is not empty. */
  ghost predicate Reads(decode: Decoder, value: seq<Byte>, unicode: bool, text: string) {
    value != [] && text != "" && decode(value, unicode) == Some(text)
  }

  /** No pair with this id has a readable value. */
  ghost predicate IsSilent(decode: Decoder, avs: seq<Av>, id: int) {
    forall i, text :: 0 <= i < |avs| && avs[i].id == id ==> !Reads(decode, avs[i].value, true, text)
  }

  /** The last readable value under this id. */
  ghost predicate IsSent(decode: Decoder, avs: seq<Av>, id: int, text: string) {
    exists i :: 0 <= i < |avs| && avs[i].id == id && Reads(decode, avs[i].value, true, text)
                && IsSilent(decode, avs[i + 1..], id)
  }

  lemma {:induction false} FoundIsSent(decode: Decoder, avs: seq<Av>, id: int)
    ensures match Found(decode, avs, id)
            case Some(text) => IsSent(decode, avs, id, text)
            case None => IsSilent(decode, avs, id)
  {
    if avs != [] {
      FoundIsSent(decode, avs[1..], id);
      var later := Found(decode, avs[1..], id);
      if later.Some? {
        var i :| 0 <= i < |avs| - 1 && avs[1..][i].id == id && Reads(decode, avs[1..][i].value, true, later.value)
                 && IsSilent(decode, avs[1..][i + 1..], id);
        assert avs[1..][i + 1..] == avs[i + 1 + 1..] && avs[i + 1] == avs[1..][i];
      } else {
        forall i, text | 0 < i < |avs| && avs[i].id == id ensures !Reads(decode, avs[i].value, true, text) {
          assert avs[i] == avs[1..][i - 1];
        }
        assert avs[0 + 1..] == avs[1..];
      }
    }
  }

  /** What a field of the target is filled with: what was sent under its id, or something else. */
  ghost predicate IsFilled(decode: Decoder, avs: seq<Av>, id: int, got: Option<string>, otherwise: Option<string>) {
    || (got.Some? && IsSent(decode, avs, id, got.value))
    || (got == otherwise && IsSilent(decode, avs, id))
  }

  /** The text of some bytes, if they have one. */
  ghost predicate IsTextOf(decode: Decoder, value: seq<Byte>, unicode: bool, got: Option<string>) {
    forall text :: got == Some(text) <==> Reads(decode, value, unicode, text)
  }

  lemma {:induction false} Filled(decode: Decoder, avs: seq<Av>, id: int, otherwise: Option<string>)
    ensures IsFilled(decode, avs, id, OrElse(Found(decode, avs, id), otherwise), otherwise)
  {
    FoundIsSent(decode, avs, id);
  }

  lemma {:induction false} MessageParts(decode: Decoder, name: seq<Byte>, flags: int, challenge: seq<Byte>,
                                        avs: seq<Av>)
    requires |name| < 0x10000 && 0 <= flags < 0x1_0000_0000 && |challenge| == 16
    requires ArePairs(avs) && |Encode(avs)| + 4 < 0x10000
    ensures var blob := Message(name, flags, challenge, avs);
      && IsChallenge(blob) && TargetName(decode, blob) == Text(decode, name, flags % 2 == 1)
      && Region(blob, U32(blob, 44), InfoEnd(blob)) == avs
  {
    var blob, info := Message(name, flags, challenge, avs), Encode(avs) + [0, 0, 0, 0];
    var header := Header(name, flags, challenge, |Encode(avs)| + 4);
    CarriesAll(blob);
    CarriesBoth(blob, 0, header, name + info);
    CarriesBoth(blob, 48, name, info);
    HeaderIsRead(blob, name, flags, challenge, |Encode(avs)| + 4);
    CarriesSlice(blob, 48, name);
    RegionRoundTrip(blob, 48 + |name|, avs, [0, 0, 0, 0], InfoEnd(blob));
  }

  /** A message is parsed to what its server says about itself: the four names under the ids 2, 4, 1 and 3,
      and where it does not send its NetBIOS domain, the target name, in the encoding of the lowest flag. */
  lemma {:induction false} MessageIsRead(decode: Decoder, name: seq<Byte>, flags: int, challenge: seq<Byte>,
                                         avs: seq<Av>)
    requires |name| < 0x10000 && 0 <= flags < 0x1_0000_0000 && |challenge| == 16
    requires ArePairs(avs) && |Encode(avs)| + 4 < 0x10000
    ensures var (blob, own) := (Message(name, flags, challenge, avs), Text(decode, name, flags % 2 == 1));
      && IsChallenge(blob) && IsTextOf(decode, name, flags % 2 == 1, own)
      && var target := TargetOf(decode, blob);
         && IsFilled(decode, avs, 2, target.netbiosDomain, own)
         && IsFilled(decode, avs, 4, target.dnsDomain, None)
         && IsFilled(decode, avs, 1, target.netbiosComputer, None)
         && IsFilled(decode, avs, 3, target.dnsComputer, None)
  {
    MessageParts(decode, name, flags, challenge, avs);
    Filled(decode, avs, 2, Text(decode, name, flags % 2 == 1));
    Filled(decode, avs, 4, None);
    Filled(decode, avs, 1, None);
    Filled(decode, avs, 3, None);
  }
}
