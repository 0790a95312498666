/**
 * Percent-encoding and decoding of URIs (the `%XX` escapes of section 2.1 of
 * RFC 3986), over the UTF-8 bytes of the text. Every byte a kept class keeps
 * is ASCII, so escaping character by character is escaping byte by byte: a
 * character outside the class has all its UTF-8 bytes escaped.
 *
 * Decoding replaces each maximal run of `%XX` escapes (hex digits in either
 * case) by the bytes it denotes, passed through lossy UTF-8 decoding: a
 * malformed sequence becomes U+FFFD. Everything else is copied.
 */
module Uri {
  newtype byte = x: int | 0 <= x < 256

  const Percent: byte := 37
  /** U+FFFD REPLACEMENT CHARACTER in UTF-8. */
  const Replacement: seq<byte> := [0xEF, 0xBF, 0xBD]

  /** The two character classes the encoders leave alone. */
  datatype KeptClass = UriClass | ComponentClass

  predicate IsAlphanumeric(b: byte)
  {
    48 <= b <= 57 || 65 <= b <= 90 || 97 <= b <= 122
  }

  /** `A-Z a-z 0-9 - _ . ! ~ * ' ( )`, which `encode_uri_component` keeps. */
  predicate IsUnreserved(b: byte)
    ensures IsUnreserved(b) ==> b < 0x80 && b != Percent
  {
    IsAlphanumeric(b) || b in {45, 95, 46, 33, 126, 42, 39, 40, 41}
  }

  /**
   * What `encode_uri` keeps: the unreserved characters and `; / ? : @ & = + , #`.
   * `$` is not among them.
   */
  predicate Kept(k: KeptClass, b: byte)
    ensures Kept(k, b) ==> b < 0x80 && b != Percent
    ensures b == 36 ==> !Kept(k, b)
  {
    IsUnreserved(b) || (k == UriClass && b in {59, 47, 63, 58, 64, 38, 61, 43, 44, 35})
  }

  /** An uppercase hexadecimal digit. */
  function HexDigit(n: int): byte
    requires 0 <= n < 16
  {
    if n < 10 then (48 + n) as byte else (55 + n) as byte
  }

  predicate IsHex(b: byte)
  {
    48 <= b <= 57 || 65 <= b <= 70 || 97 <= b <= 102
  }

  function HexValue(b: byte): (v: int)
    requires IsHex(b)
    ensures 0 <= v < 16
  {
    if b <= 57 then b as int - 48 else if b <= 70 then b as int - 55 else b as int - 87
  }

  /** `octet_to_hex`: two uppercase hex digits that read back as the octet. */
  function OctetToHex(b: byte): (r: seq<byte>)
    ensures |r| == 2 && IsHex(r[0]) && IsHex(r[1])
    ensures !(97 <= r[0] <= 102) && !(97 <= r[1] <= 102)
    ensures HexValue(r[0]) * 16 + HexValue(r[1]) == b as int
  {
    [HexDigit(b as int / 16), HexDigit(b as int % 16)]
  }

  /** The encoding of one byte. */
  function EncodeByte(k: KeptClass, b: byte): seq<byte>
  {
    if Kept(k, b) then [b] else [Percent] + OctetToHex(b)
  }

  /** `encode_uri` (class `UriClass`) and `encode_uri_component` (class `ComponentClass`). */
  function Encode(k: KeptClass, s: seq<byte>): (r: seq<byte>)
    ensures |s| <= |r| <= 3 * |s|
  {
    if |s| == 0 then [] else EncodeByte(k, s[0]) + Encode(k, s[1..])
  }

  /** `%` and two hex digits start at `i`. */
  predicate EscapeAt(s: seq<byte>, i: nat)
  {
    i + 3 <= |s| && s[i] == Percent && IsHex(s[i + 1]) && IsHex(s[i + 2])
  }

  /** The number of consecutive `%XX` escapes at the start of `s`. */
  function Groups(s: seq<byte>): (n: nat)
    ensures 3 * n <= |s|
    ensures n > 0 <==> EscapeAt(s, 0)
  {
    if EscapeAt(s, 0) then 1 + Groups(s[3..]) else 0
  }

  /** The octet of the escape at the start of `s`. */
  function GroupByte(s: seq<byte>): byte
    requires EscapeAt(s, 0)
  {
    (HexValue(s[1]) * 16 + HexValue(s[2])) as byte
  }

  /** The octets of the first `n` escapes of `s`. */
  function RunBytes(s: seq<byte>, n: nat): (r: seq<byte>)
    requires n <= Groups(s)
    ensures |r| == n
  {
    if n == 0 then [] else [GroupByte(s)] + RunBytes(s[3..], n - 1)
  }

  /** `decode_uri`, which `decode_uri_component` calls unchanged. */
  function Decode(s: seq<byte>): (r: seq<byte>)
    ensures |r| <= |s|
    decreases |s|
  {
    if |s| == 0 then []
    else if EscapeAt(s, 0) then
      var n := Groups(s);
      Lossy(RunBytes(s, n)) + Decode(s[3 * n..])
    else [s[0]] + Decode(s[1..])
  }

  /**
   * The replacement closure's loop: skip `%`, read two hex digits as one
   * octet, repeat until the run is used up. On a run the regex matched the
   * digits always parse, so the `unwrap_or(0)` fallback never applies.
   */
  method DecodeRun(run: seq<byte>) returns (octets: seq<byte>)
    requires 3 * Groups(run) == |run|
    ensures octets == RunBytes(run, Groups(run))
  {
    octets := [];
    var rest := run;
    while |rest| > 0
      invariant 3 * Groups(rest) == |rest|
      invariant octets + RunBytes(rest, Groups(rest)) == RunBytes(run, Groups(run))
      decreases |rest|
    {
      RunStep(rest);
      var octet := GroupByte(rest);
      assert octets + [octet] + RunBytes(rest[3..], Groups(rest[3..])) == octets + RunBytes(rest, Groups(rest));
      octets := octets + [octet];
      rest := rest[3..];
    }
    assert octets + [] == octets;
  }

  // Lossy UTF-8 decoding, as `String::from_utf8_lossy` does it.

  /** The length of the sequence a lead byte announces; 0 for a byte that cannot start one. */
  function CharLen(lead: byte): nat
  {
    if lead < 0x80 then 1
    else if 0xC2 <= lead <= 0xDF then 2
    else if 0xE0 <= lead <= 0xEF then 3
    else if 0xF0 <= lead <= 0xF4 then 4
    else 0
  }

  predicate IsContinuation(b: byte)
  {
    0x80 <= b <= 0xBF
  }

  /** The range of the second byte, which excludes overlong forms, surrogates and code points past U+10FFFF. */
  predicate SecondOk(lead: byte, b: byte)
  {
    if lead == 0xE0 then 0xA0 <= b <= 0xBF
    else if lead == 0xED then 0x80 <= b <= 0x9F
    else if lead == 0xF0 then 0x90 <= b <= 0xBF
    else if lead == 0xF4 then 0x80 <= b <= 0x8F
    else IsContinuation(b)
  }

  /** How many bytes at the start of `s` begin a well-formed sequence. */
  function Prefix(s: seq<byte>): (m: nat)
    requires |s| > 0
    ensures m <= |s| && m <= 4
    ensures CharLen(s[0]) > 0 ==> 1 <= m <= CharLen(s[0])
    ensures CharLen(s[0]) == 0 ==> m == 0
  {
    var n := CharLen(s[0]);
    if n <= 1 then n
    else if |s| < 2 || !SecondOk(s[0], s[1]) then 1
    else if n == 2 || |s| < 3 || !IsContinuation(s[2]) then 2
    else if n == 3 || |s| < 4 || !IsContinuation(s[3]) then 3
    else 4
  }

  /** A whole well-formed sequence starts `s`. */
  predicate CharAtStart(s: seq<byte>)
  {
    |s| > 0 && CharLen(s[0]) > 0 && Prefix(s) == CharLen(s[0])
  }

  predicate ValidUtf8(s: seq<byte>)
    decreases |s|
  {
    |s| == 0 || (CharAtStart(s) && ValidUtf8(s[CharLen(s[0])..]))
  }

  /** Well-formed sequences are copied; each maximal malformed piece becomes one U+FFFD. */
  function Lossy(s: seq<byte>): (r: seq<byte>)
    ensures |s| <= |r| <= 3 * |s|
    decreases |s|
  {
    if |s| == 0 then []
    else if CharAtStart(s) then s[..CharLen(s[0])] + Lossy(s[CharLen(s[0])..])
    else Replacement + Lossy(s[if Prefix(s) == 0 then 1 else Prefix(s)..])
  }

  // Properties.

  /** Percent-encoded text is pure ASCII. */
  lemma {:induction false} EncodeIsAscii(k: KeptClass, s: seq<byte>)
    ensures forall i :: 0 <= i < |Encode(k, s)| ==> Encode(k, s)[i] < 0x80
    decreases |s|
  {
    if |s| > 0 {
      EncodeIsAscii(k, s[1..]);
      var h := EncodeByte(k, s[0]);
      assert forall i :: 0 <= i < |h| ==> h[i] < 0x80;
      assert Encode(k, s) == h + Encode(k, s[1..]);
    }
  }

  /** Encoding works byte by byte, so it distributes over concatenation. */
  lemma {:induction false} EncodeAppend(k: KeptClass, a: seq<byte>, b: seq<byte>)
    ensures Encode(k, a + b) == Encode(k, a) + Encode(k, b)
    decreases |a|
  {
    if |a| > 0 {
      assert (a + b)[1..] == a[1..] + b;
      EncodeAppend(k, a[1..], b);
    } else {
      assert a + b == b;
    }
  }

  /** A kept byte is copied, any other byte becomes `%` and its two uppercase hex digits. */
  lemma EncodeOneByte(k: KeptClass, b: byte)
    ensures Kept(k, b) ==> Encode(k, [b]) == [b]
    ensures !Kept(k, b) ==> Encode(k, [b]) == [Percent] + OctetToHex(b)
  {
    assert [b][1..] == [];
  }

  /** `encode_uri_component(":") == "%3A"`. */
  lemma EncodeComponentColon()
    ensures Encode(ComponentClass, [58]) == [37, 51, 65]
  {
    EncodeOneByte(ComponentClass, 58);
  }

  /** `encode_uri` keeps `:` but escapes `$` as `%24`. */
  lemma EncodeUriColonAndDollar()
    ensures Encode(UriClass, [58]) == [58]
    ensures Encode(UriClass, [36]) == [37, 50, 52]
  {
    EncodeOneByte(UriClass, 58);
    EncodeOneByte(UriClass, 36);
  }

  /** Text without `%` decodes to itself. */
  lemma {:induction false} DecodeWithoutPercent(s: seq<byte>)
    requires Percent !in s
    ensures Decode(s) == s
    decreases |s|
  {
    if |s| > 0 {
      assert s[0] != Percent;
      DecodeWithoutPercent(s[1..]);
    }
  }

  /** `decode_uri` copies a byte that does not start an escape. */
  lemma DecodeCons(c: byte, t: seq<byte>)
    requires c != Percent
    ensures Decode([c] + t) == [c] + Decode(t)
  {
    assert ([c] + t)[1..] == t;
  }

  /** A `%` not followed by two hex digits is not an escape, and decoding copies it. */
  lemma DecodeInvalidPercent(t: seq<byte>)
    requires !(|t| >= 2 && IsHex(t[0]) && IsHex(t[1]))
    ensures Decode([Percent] + t) == [Percent] + Decode(t)
  {
    assert ([Percent] + t)[1..] == t;
  }

  /**
   * The case of the hex digits does not matter: an escape decodes like any
   * other escape with digits of the same value, whatever follows it.
   */
  lemma DecodeHexCase(a: byte, b: byte, a': byte, b': byte, t: seq<byte>)
    requires IsHex(a) && IsHex(b) && IsHex(a') && IsHex(b')
    requires HexValue(a) == HexValue(a') && HexValue(b) == HexValue(b')
    ensures Decode([Percent, a, b] + t) == Decode([Percent, a', b'] + t)
  {
    var s, s' := [Percent, a, b] + t, [Percent, a', b'] + t;
    assert s[3..] == t && s'[3..] == t;
    RunStep(s);
    RunStep(s');
    assert GroupByte(s) == GroupByte(s');
    var n := Groups(s);
    assert Groups(s') == n;
    assert s[3 * n..] == t[3 * (n - 1)..] == s'[3 * n..];
  }

  /** `%e9` and `%E9` decode alike. */
  lemma DecodeLowercaseEscape(t: seq<byte>)
    ensures Decode([Percent, 101, 57] + t) == Decode([Percent, 69, 57] + t)
  {
    DecodeHexCase(101, 57, 69, 57, t);
  }

  /** Every byte of `a` lies outside the class. */
  ghost predicate AllEscaped(k: KeptClass, a: seq<byte>)
  {
    forall j :: 0 <= j < |a| ==> !Kept(k, a[j])
  }

  /** The escapes `Encode` makes of a piece of escaped bytes form a run that decodes back to the bytes. */
  lemma {:induction false} EscapedRun(k: KeptClass, a: seq<byte>, t: seq<byte>)
    requires AllEscaped(k, a)
    requires |t| == 0 || t[0] != Percent
    ensures |Encode(k, a)| == 3 * |a|
    ensures Groups(Encode(k, a) + t) == |a|
    ensures RunBytes(Encode(k, a) + t, |a|) == a
    decreases |a|
  {
    var s := Encode(k, a) + t;
    if |a| == 0 {
      assert s == t;
    } else {
      EscapedRun(k, a[1..], t);
      EscapedHead(k, a, t);
      EncodeEscapedByte(k, a);
      RunStep(s);
      assert a == [a[0]] + a[1..];
    }
  }

  /** One escape at the start of a run: one more group, one more octet in front. */
  lemma RunStep(s: seq<byte>)
    requires EscapeAt(s, 0)
    ensures Groups(s) == Groups(s[3..]) + 1
    ensures RunBytes(s, Groups(s)) == [GroupByte(s)] + RunBytes(s[3..], Groups(s[3..]))
  {
  }

  /** The first escape of a run, and what follows it. */
  lemma EscapedHead(k: KeptClass, a: seq<byte>, t: seq<byte>)
    requires |a| > 0 && !Kept(k, a[0])
    ensures EscapeAt(Encode(k, a) + t, 0)
    ensures GroupByte(Encode(k, a) + t) == a[0]
    ensures (Encode(k, a) + t)[3..] == Encode(k, a[1..]) + t
  {
    EncodeEscapedAppend(k, a, t);
    EscapeShape(Encode(k, a) + t, OctetToHex(a[0]), Encode(k, a[1..]) + t, a[0]);
  }

  /** `Encode` on text whose first byte is escaped. */
  lemma EncodeEscapedByte(k: KeptClass, a: seq<byte>)
    requires |a| > 0 && !Kept(k, a[0])
    ensures Encode(k, a) == [Percent] + OctetToHex(a[0]) + Encode(k, a[1..])
  {
  }

  /** The same, with text after it. */
  lemma EncodeEscapedAppend(k: KeptClass, a: seq<byte>, t: seq<byte>)
    requires |a| > 0 && !Kept(k, a[0])
    ensures Encode(k, a) + t == [Percent] + OctetToHex(a[0]) + (Encode(k, a[1..]) + t)
  {
    EncodeEscapedByte(k, a);
    Regroup(Encode(k, a), OctetToHex(a[0]), Encode(k, a[1..]), t);
  }

  /** Appending `t` to `%`, `h` and `rest`. */
  lemma Regroup(e: seq<byte>, h: seq<byte>, rest: seq<byte>, t: seq<byte>)
    requires e == [Percent] + h + rest
    ensures e + t == [Percent] + h + (rest + t)
  {
  }

  /** `%`, two hex digits for `b`, then `rest`: one escape that denotes `b`. */
  lemma EscapeShape(s: seq<byte>, h: seq<byte>, rest: seq<byte>, b: byte)
    requires |h| == 2 && IsHex(h[0]) && IsHex(h[1]) && HexValue(h[0]) * 16 + HexValue(h[1]) == b as int
    requires s == [Percent] + h + rest
    ensures EscapeAt(s, 0) && GroupByte(s) == b && s[3..] == rest
  {
    assert s[1] == h[0] && s[2] == h[1];
    assert s[3..] == rest;
  }

  /** A run of escaped bytes followed by something else decodes to the lossy decoding of the bytes. */
  lemma DecodeEscapedRun(k: KeptClass, a: seq<byte>, t: seq<byte>)
    requires |a| > 0 && AllEscaped(k, a)
    requires |t| == 0 || t[0] != Percent
    ensures Decode(Encode(k, a) + t) == Lossy(a) + Decode(t)
  {
    var s := Encode(k, a) + t;
    EscapedRun(k, a, t);
    assert EscapeAt(s, 0);
    assert s[3 * |a|..] == t;
  }

  /** Well-formed UTF-8 passes lossy decoding unchanged. */
  lemma {:induction false} LossyValid(s: seq<byte>)
    requires ValidUtf8(s)
    ensures Lossy(s) == s
    decreases |s|
  {
    if |s| > 0 {
      LossyValid(s[CharLen(s[0])..]);
      assert s[..CharLen(s[0])] + s[CharLen(s[0])..] == s;
    }
  }

  /** Lossy decoding always yields well-formed UTF-8. */
  lemma {:induction false} LossyIsValid(s: seq<byte>)
    ensures ValidUtf8(Lossy(s))
    decreases |s|
  {
    if |s| > 0 {
      if CharAtStart(s) {
        var n := CharLen(s[0]);
        LossyIsValid(s[n..]);
        ValidCons(s[..n], Lossy(s[n..]));
      } else {
        LossyIsValid(s[if Prefix(s) == 0 then 1 else Prefix(s)..]);
        ValidCons(Replacement, Lossy(s[if Prefix(s) == 0 then 1 else Prefix(s)..]));
      }
    }
  }

  /** One whole sequence followed by well-formed UTF-8 is well-formed. */
  lemma ValidCons(c: seq<byte>, t: seq<byte>)
    requires CharAtStart(c) && |c| == CharLen(c[0]) && ValidUtf8(t)
    ensures ValidUtf8(c + t)
  {
    var s := c + t;
    assert s[..|c|] == c;
    assert s[|c|..] == t;
    assert s[0] == c[0];
    PrefixOfPrefix(c, s);
  }

  /** `Prefix` only looks at the bytes of the announced sequence. */
  lemma PrefixOfPrefix(c: seq<byte>, s: seq<byte>)
    requires |c| > 0 && |c| == CharLen(c[0]) && |c| <= |s| && s[..|c|] == c
    ensures Prefix(s) == Prefix(c)
  {
    assert forall j :: 0 <= j < |c| ==> s[j] == c[j];
  }

  /**
   * Well-formed UTF-8 cut before an ASCII byte (or at the end) gives two
   * well-formed pieces: an ASCII byte is never inside a multi-byte sequence.
   */
  lemma {:induction false} ValidSplit(s: seq<byte>, i: nat)
    requires ValidUtf8(s) && i <= |s| && (i == |s| || s[i] < 0x80)
    ensures ValidUtf8(s[..i]) && ValidUtf8(s[i..])
    decreases |s|
  {
    if i == 0 {
      assert s[i..] == s;
    } else {
      var n := CharLen(s[0]);
      if i < n {
        assert IsContinuation(s[i]) by {
          assert Prefix(s) == n;
          assert 2 <= n;
        }
      } else {
        ValidSplit(s[n..], i - n);
        ValidSplitStep(s, i);
      }
    }
  }

  /** One step of `ValidSplit`: the first sequence lies wholly before the cut. */
  lemma ValidSplitStep(s: seq<byte>, i: nat)
    requires CharAtStart(s) && CharLen(s[0]) <= i <= |s|
    requires ValidUtf8(s[CharLen(s[0])..][..i - CharLen(s[0])])
    requires ValidUtf8(s[CharLen(s[0])..][i - CharLen(s[0])..])
    ensures ValidUtf8(s[..i]) && ValidUtf8(s[i..])
  {
    var n := CharLen(s[0]);
    var c := s[..n];
    assert s[n..][..i - n] == s[n..i];
    assert s[n..][i - n..] == s[i..];
    var p := s[..i];
    assert p[..n] == c && s[..n] == c;
    PrefixOfPrefix(c, p);
    PrefixOfPrefix(c, s);
    assert p[n..] == s[n..i];
  }

  /** Removing a leading ASCII byte keeps UTF-8 well-formed. */
  lemma ValidTail(s: seq<byte>)
    requires ValidUtf8(s) && |s| > 0 && s[0] < 0x80
    ensures ValidUtf8(s[1..])
  {
  }

  /** The length of the longest prefix of `s` whose bytes are all escaped. */
  function EscapedPrefix(k: KeptClass, s: seq<byte>): (i: nat)
    ensures i <= |s|
    ensures forall j :: 0 <= j < i ==> !Kept(k, s[j])
    ensures i < |s| ==> Kept(k, s[i])
    decreases |s|
  {
    if |s| == 0 || Kept(k, s[0]) then 0 else 1 + EscapedPrefix(k, s[1..])
  }

  /** The round trip: decoding what either encoder produced from UTF-8 text gives the text back. */
  lemma {:induction false} DecodeEncode(k: KeptClass, s: seq<byte>)
    requires ValidUtf8(s)
    ensures Decode(Encode(k, s)) == s
    decreases |s|
  {
    if |s| > 0 {
      var i := DecodeEncodeStep(k, s);
      DecodeEncode(k, s[i..]);
      Recombine(s, i, Decode(Encode(k, s)), Decode(Encode(k, s[i..])));
    }
  }

  lemma Recombine(s: seq<byte>, i: nat, x: seq<byte>, y: seq<byte>)
    requires i <= |s| && x == s[..i] + y && y == s[i..]
    ensures x == s
  {
    assert s == s[..i] + s[i..];
  }

  /**
   * The round trip splits after the first kept byte, or after the maximal
   * piece of escaped bytes at the start.
   */
  lemma DecodeEncodeStep(k: KeptClass, s: seq<byte>) returns (i: nat)
    requires ValidUtf8(s) && |s| > 0
    ensures 0 < i <= |s| && ValidUtf8(s[i..])
    ensures Decode(Encode(k, s)) == s[..i] + Decode(Encode(k, s[i..]))
  {
    if Kept(k, s[0]) {
      i := 1;
      ValidTail(s);
      DecodeEncodeKept(k, s);
      assert s[..1] == [s[0]];
    } else {
      i := EscapedPrefix(k, s);
      ValidSplit(s, i);
      DecodeEncodeEscaped(k, s, i);
    }
  }

  /** The round trip over a kept byte at the start of `s`. */
  lemma DecodeEncodeKept(k: KeptClass, s: seq<byte>)
    requires |s| > 0 && Kept(k, s[0])
    ensures Decode(Encode(k, s)) == [s[0]] + Decode(Encode(k, s[1..]))
  {
    EncodeOneByte(k, s[0]);
    DecodeCons(s[0], Encode(k, s[1..]));
  }

  /** The round trip over a maximal piece of escaped bytes at the start of `s`. */
  lemma DecodeEncodeEscaped(k: KeptClass, s: seq<byte>, i: nat)
    requires 0 < i <= |s| && i == EscapedPrefix(k, s)
    requires ValidUtf8(s[..i])
    ensures Decode(Encode(k, s)) == s[..i] + Decode(Encode(k, s[i..]))
  {
    var a, b := s[..i], s[i..];
    assert s == a + b;
    EncodeAppend(k, a, b);
    if i < |s| {
      EncodeStartsKept(k, b);
    }
    DecodeEscapedRun(k, a, Encode(k, b));
    LossyValid(a);
  }

  /** Encoding text that starts with a kept byte starts with that byte, which is not `%`. */
  lemma EncodeStartsKept(k: KeptClass, b: seq<byte>)
    requires |b| > 0 && Kept(k, b[0])
    ensures |Encode(k, b)| > 0 && Encode(k, b)[0] == b[0] != Percent
  {
  }

  /** The round trip of the source's own check, on U+10FFFF (UTF-8 `F4 8F BF BF`). */
  lemma DecodeEncodeLastCodePoint()
    ensures Decode(Encode(UriClass, [0xF4, 0x8F, 0xBF, 0xBF])) == [0xF4, 0x8F, 0xBF, 0xBF]
  {
    var s: seq<byte> := [0xF4, 0x8F, 0xBF, 0xBF];
    assert CharAtStart(s) && s[4..] == [];
    DecodeEncode(UriClass, s);
  }
}
