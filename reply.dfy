/**
 * The reply normalizer of the MDT probe: ASCII decoding that drops bytes it
 * cannot decode, Python's `str.strip`, and the echo/prompt removal applied to
 * every reply before it is classified.
 */
module Reply {

  /** One byte read from or written to the serial port. */
  newtype Byte = b: int | 0 <= b < 256

  predicate IsAsciiChar(c: char) {
    c as int < 128
  }

  predicate IsAscii(s: string) {
    forall k :: 0 <= k < |s| ==> IsAsciiChar(s[k])
  }

  // ---------------------------------------------------------------------------
  // Decoding: bytes.decode('ascii', errors='ignore')
  // ---------------------------------------------------------------------------

  /** Decodes bytes as ASCII, silently dropping every byte of 128 or more. */
  function Decode(raw: seq<Byte>): (s: string)
    ensures IsAscii(s)
    ensures |s| <= |raw|
  {
    if raw == [] then [] else DecodeByte(raw[0]) + Decode(raw[1..])
  }

  /** One byte's share of the decoded text: its character, or nothing for
      a byte of 128 or more. */
  function DecodeByte(b: Byte): (s: string)
    ensures |s| <= 1 && IsAscii(s)
    ensures b < 128 <==> s == [(b as int) as char]
    ensures b >= 128 ==> s == []
  {
    if b < 128 then [(b as int) as char] else []
  }

  /** Encodes an ASCII string as the bytes that carry it. */
  function Encode(s: string): (raw: seq<Byte>)
    requires IsAscii(s)
    ensures |raw| == |s|
    ensures forall k :: 0 <= k < |s| ==> raw[k] as int == s[k] as int
  {
    if s == [] then [] else [(s[0] as int) as Byte] + Encode(s[1..])
  }

  /** Decoding distributes over concatenation: a byte is kept or dropped on its own. */
  lemma {:induction false} DecodeAppend(a: seq<Byte>, b: seq<Byte>)
    ensures Decode(a + b) == Decode(a) + Decode(b)
  {
    if a == [] {
      assert a + b == b;
    } else {
      var ab := a + b;
      assert ab[0] == a[0] && ab[1..] == a[1..] + b;
      DecodeAppend(a[1..], b);
      var h, t, d := DecodeByte(a[0]), Decode(a[1..]), Decode(b);
      assert Decode(a) == h + t;
      assert Decode(ab) == h + Decode(ab[1..]);
      assert Decode(ab[1..]) == t + d;
      assert h + (t + d) == (h + t) + d;
    }
  }

  /** Decoding the encoding of an ASCII string gives the string back. */
  lemma {:induction false} DecodeEncode(s: string)
    requires IsAscii(s)
    ensures Decode(Encode(s)) == s
  {
    if s != [] {
      var raw := Encode(s);
      assert raw[1..] == Encode(s[1..]);
      DecodeEncode(s[1..]);
    }
  }

  /** Bytes that are all ASCII decode without loss: encoding the text gives them back. */
  lemma {:induction false} EncodeDecode(raw: seq<Byte>)
    requires forall k :: 0 <= k < |raw| ==> raw[k] < 128
    ensures |Decode(raw)| == |raw|
    ensures Encode(Decode(raw)) == raw
  {
    if raw != [] {
      EncodeDecode(raw[1..]);
      var s := Decode(raw);
      assert s == [(raw[0] as int) as char] + Decode(raw[1..]);
      assert s[1..] == Decode(raw[1..]);
    }
  }

  /** Non-ASCII bytes contribute nothing: bytes that are all 128 or more decode to "". */
  lemma {:induction false} DecodeDropsNonAscii(raw: seq<Byte>)
    requires forall k :: 0 <= k < |raw| ==> raw[k] >= 128
    ensures Decode(raw) == []
  {
    if raw != [] {
      DecodeDropsNonAscii(raw[1..]);
    }
  }

  // ---------------------------------------------------------------------------
  // Python's str.strip(chars)
  // ---------------------------------------------------------------------------

  /** The characters `str.strip()` removes when called without an argument,
      restricted to ASCII (decoded text never holds anything else):
      tab, line feed, vertical tab, form feed, carriage return, the four
      information separators 0x1C-0x1F, and space. */
  const Whitespace: set<char> :=
    set c: char | '\t' <= c <= '\r' || '\U{1C}' <= c <= ' '

  /** The prompt and terminator characters stripped from both ends of a reply. */
  const Framing: set<char> :=
    set c: char | c == '\r' || c == '\n' || c == ' ' || c == '>' || c == '!' || c == '*'

  /** Scans forward from `i` past characters of `cs`: the first position at
      or after `i` that is the end of `s` or holds a character outside `cs`. */
  function LeadEnd(s: string, cs: set<char>, i: nat): (e: nat)
    requires i <= |s|
    ensures i <= e <= |s|
    ensures forall k :: i <= k < e ==> s[k] in cs
    ensures e < |s| ==> s[e] !in cs
    decreases |s| - i
  {
    if i < |s| && s[i] in cs then LeadEnd(s, cs, i + 1) else i
  }

  /** Scans backward from `j` past characters of `cs`, never below `lo`: the
      last position down to which everything before `j` is in `cs`. */
  function TrailStart(s: string, cs: set<char>, lo: nat, j: nat): (t: nat)
    requires lo <= j <= |s|
    ensures lo <= t <= j
    ensures forall k :: t <= k < j ==> s[k] in cs
    ensures lo < t ==> s[t - 1] !in cs
  {
    if lo < j && s[j - 1] in cs then TrailStart(s, cs, lo, j - 1) else j
  }

  /** `s[i..j]` is what is left of `s` once every leading and trailing
      character in `cs` is gone: everything outside the window is in `cs`,
      and a non-empty window begins and ends outside `cs`. */
  predicate IsStripWindow(s: string, cs: set<char>, i: int, j: int) {
    0 <= i <= j <= |s| &&
    (forall k :: 0 <= k < i ==> s[k] in cs) &&
    (forall k :: j <= k < |s| ==> s[k] in cs) &&
    (i < j ==> s[i] !in cs && s[j - 1] !in cs)
  }

  /** Python's `s.strip(cs)`: no character of `cs` is left at either end. */
  function Strip(s: string, cs: set<char>): (r: string)
    ensures |r| <= |s|
    ensures r == [] || (r[0] !in cs && r[|r| - 1] !in cs)
  {
    var i := LeadEnd(s, cs, 0);
    s[i..TrailStart(s, cs, i, |s|)]
  }

  /** `Strip` keeps exactly a strip window of its input: it removes the
      leading and trailing runs of characters in `cs` and nothing else. */
  lemma StripWindow(s: string, cs: set<char>) returns (i: int, j: int)
    ensures IsStripWindow(s, cs, i, j) && Strip(s, cs) == s[i..j]
  {
    i := LeadEnd(s, cs, 0);
    j := TrailStart(s, cs, i, |s|);
  }

  /** Every character of `s` belongs to `cs`. */
  predicate AllIn(s: string, cs: set<char>) {
    forall k :: 0 <= k < |s| ==> s[k] in cs
  }

  /** Every byte of `raw` is either dropped by the decoder or decodes to a
      character of `cs`. */
  predicate DecodesWithin(raw: seq<Byte>, cs: set<char>) {
    forall k :: 0 <= k < |raw| ==> raw[k] >= 128 || (raw[k] as int) as char in cs
  }

  /** `Strip` splits its input into a removed prefix, the kept text and a
      removed suffix, both removed parts made only of characters in `cs`. */
  lemma StripSplit(s: string, cs: set<char>) returns (pre: string, post: string)
    ensures s == pre + Strip(s, cs) + post
    ensures AllIn(pre, cs) && AllIn(post, cs)
  {
    var i, j := StripWindow(s, cs);
    pre, post := s[..i], s[j..];
    assert s == s[..i] + s[i..j] + s[j..];
    forall k | 0 <= k < |post| ensures post[k] in cs {
      assert post[k] == s[j + k];
    }
  }

  /** The strip window is unique: whatever window satisfies the description,
      `Strip` returns its contents. */
  lemma {:induction false} StripUnique(s: string, cs: set<char>, i: int, j: int)
    requires IsStripWindow(s, cs, i, j)
    ensures Strip(s, cs) == s[i..j]
  {
    var a, b := StripWindow(s, cs);
    assert (i < j) == (a < b);
    if i < j {
      assert i == a && j == b;
    }
  }

  /** Stripping keeps text ASCII, and keeps text inside any character set. */
  lemma {:induction false} StripWithin(s: string, cs: set<char>, within: set<char>)
    requires AllIn(s, within)
    ensures AllIn(Strip(s, cs), within)
  {
    var i, j := StripWindow(s, cs);
    var r := Strip(s, cs);
    forall k | 0 <= k < |r| ensures r[k] in within {
      assert r[k] == s[i + k];
    }
  }

  /** Stripping twice is stripping once. */
  lemma {:induction false} StripIdempotent(s: string, cs: set<char>)
    ensures Strip(Strip(s, cs), cs) == Strip(s, cs)
  {
    var r := Strip(s, cs);
    assert IsStripWindow(r, cs, 0, |r|);
    StripUnique(r, cs, 0, |r|);
  }

  /** A string made only of characters in `cs` strips to the empty string. */
  lemma {:induction false} StripAllOf(s: string, cs: set<char>)
    requires AllIn(s, cs)
    ensures Strip(s, cs) == []
  {
    assert IsStripWindow(s, cs, 0, 0);
    StripUnique(s, cs, 0, 0);
  }

  // ---------------------------------------------------------------------------
  // The normalizer: _strip_echo_and_prompts
  // ---------------------------------------------------------------------------

  /** `str.startswith`: `p` is a prefix of `s`. */
  predicate StartsWith(s: string, p: string) {
    |p| <= |s| && s[..|p|] == p
  }

  /** The reply text after decoding and whitespace trimming. */
  function Trimmed(raw: seq<Byte>): string {
    Strip(Decode(raw), Whitespace)
  }

  /** True when the device echoed the command: its trimmed text is non-empty
      and the trimmed reply starts with it. */
  predicate Echoes(raw: seq<Byte>, cmd: seq<Byte>) {
    Trimmed(cmd) != [] && StartsWith(Trimmed(raw), Trimmed(cmd))
  }

  /** Decodes a raw reply, removes the echoed command and strips the prompt
      and terminator characters from both ends. Total: every input gives a
      string, and that string never starts or ends with a framing character. */
  function Normalize(raw: seq<Byte>, cmd: seq<Byte>): (r: string)
    ensures r == [] || (r[0] !in Framing && r[|r| - 1] !in Framing)
  {
    var s := Trimmed(raw);
    var echo := Trimmed(cmd);
    var t := if echo != [] && StartsWith(s, echo) then Strip(s[|echo|..], Whitespace) else s;
    Strip(t, Framing)
  }

  /** The ASCII characters. */
  const AsciiChars: set<char> := set n | 0 <= n < 128 :: n as char

  /** The normalized reply is ASCII, whatever bytes came in: bytes that do
      not decode are dropped, and no later stage adds characters. */
  lemma {:induction false} NormalizeAscii(raw: seq<Byte>, cmd: seq<Byte>)
    ensures IsAscii(Normalize(raw, cmd))
  {
    var d := Decode(raw);
    assert AllIn(d, AsciiChars) by {
      forall k | 0 <= k < |d| ensures d[k] in AsciiChars {
        assert d[k] == (d[k] as int) as char;
      }
    }
    var s, echo := Trimmed(raw), Trimmed(cmd);
    StripWithin(d, Whitespace, AsciiChars);
    var t := s;
    if echo != [] && StartsWith(s, echo) {
      StripWithin(s[|echo|..], Whitespace, AsciiChars);
      t := Strip(s[|echo|..], Whitespace);
    }
    assert Normalize(raw, cmd) == Strip(t, Framing);
    StripWithin(t, Framing, AsciiChars);
    var r := Strip(t, Framing);
    forall k | 0 <= k < |r| ensures IsAsciiChar(r[k]) {
      assert r[k] in AsciiChars;
    }
  }

  /** Helper for `NormalizeRemovesEcho`, on plain text: regroups the pieces
      that the echo cut and the two strips leave around the kept text. */
  lemma {:induction false} Regroup(s: string, echo: string, u: string, t: string, r: string,
                                   p1: string, q1: string, p2: string, q2: string)
    returns (gap: string, tail: string)
    requires StartsWith(s, echo) && u == s[|echo|..]
    requires u == p1 + t + q1 && AllIn(p1, Whitespace) && AllIn(q1, Whitespace)
    requires t == p2 + r + q2 && AllIn(p2, Framing) && AllIn(q2, Framing)
    ensures s == echo + gap + r + tail
    ensures AllIn(gap, Whitespace + Framing) && AllIn(tail, Whitespace + Framing)
  {
    gap, tail := p1 + p2, q2 + q1;
    assert s == echo + u;
    assert u == p1 + (p2 + r + q2) + q1;
    assert s == echo + gap + r + tail;
    assert AllIn(gap, Whitespace + Framing) by {
      forall k | 0 <= k < |gap| ensures gap[k] in Whitespace + Framing {
        if k < |p1| { assert gap[k] == p1[k]; } else { assert gap[k] == p2[k - |p1|]; }
      }
    }
    assert AllIn(tail, Whitespace + Framing) by {
      forall k | 0 <= k < |tail| ensures tail[k] in Whitespace + Framing {
        if k < |q2| { assert tail[k] == q2[k]; } else { assert tail[k] == q1[k - |q2|]; }
      }
    }
  }

  /** When the reply echoes the command, the trimmed reply is the echoed
      command text, then only whitespace and framing, then the normalized
      reply, then only whitespace and framing: the echo is never part of
      the result. */
  lemma {:induction false} NormalizeRemovesEcho(raw: seq<Byte>, cmd: seq<Byte>) returns (gap: string, tail: string)
    requires Echoes(raw, cmd)
    ensures Trimmed(raw) == Trimmed(cmd) + gap + Normalize(raw, cmd) + tail
    ensures AllIn(gap, Whitespace + Framing) && AllIn(tail, Whitespace + Framing)
  {
    var s, echo := Trimmed(raw), Trimmed(cmd);
    var u := s[|echo|..];
    var t := Strip(u, Whitespace);
    var r := Strip(t, Framing);
    assert Normalize(raw, cmd) == r;
    var p1, q1 := StripSplit(u, Whitespace);
    var p2, q2 := StripSplit(t, Framing);
    gap, tail := Regroup(s, echo, u, t, r, p1, q1, p2, q2);
  }

  /** When the reply does not echo the command, only framing is removed from
      the trimmed reply: it is framing, the normalized reply, framing. */
  lemma {:induction false} NormalizeWithoutEcho(raw: seq<Byte>, cmd: seq<Byte>) returns (pre: string, post: string)
    requires !Echoes(raw, cmd)
    ensures Trimmed(raw) == pre + Normalize(raw, cmd) + post
    ensures AllIn(pre, Framing) && AllIn(post, Framing)
  {
    var s := Trimmed(raw);
    assert Normalize(raw, cmd) == Strip(s, Framing);
    pre, post := StripSplit(s, Framing);
  }

  /** A reply made only of framing characters (and bytes that do not decode)
      normalizes to the empty string, whatever command was sent. */
  lemma {:induction false} NormalizeFramingOnly(raw: seq<Byte>, cmd: seq<Byte>)
    requires DecodesWithin(raw, Framing)
    ensures Normalize(raw, cmd) == []
  {
    DecodeWithin(raw, Framing);
    StripWithin(Decode(raw), Whitespace, Framing);
    var s := Trimmed(raw);
    var echo := Trimmed(cmd);
    if echo != [] && StartsWith(s, echo) {
      FramingOnlyStrips(s, |echo|, true);
    } else {
      FramingOnlyStrips(s, 0, false);
    }
  }

  /** Helper for `NormalizeFramingOnly`, on plain text. */
  lemma {:induction false} FramingOnlyStrips(s: string, e: int, cut: bool)
    requires 0 <= e <= |s|
    requires AllIn(s, Framing)
    ensures Strip(if cut then Strip(s[e..], Whitespace) else s, Framing) == []
  {
    var t := if cut then Strip(s[e..], Whitespace) else s;
    if cut {
      StripWithin(s[e..], Whitespace, Framing);
    }
    StripAllOf(t, Framing);
  }

  /** Helper: if every byte is either dropped or decodes into `cs`, every
      decoded character is in `cs`. */
  lemma {:induction false} DecodeWithin(raw: seq<Byte>, cs: set<char>)
    requires DecodesWithin(raw, cs)
    ensures AllIn(Decode(raw), cs)
  {
    if raw != [] {
      DecodeWithin(raw[1..], cs);
      var head := DecodeByte(raw[0]);
      assert AllIn(head, cs);
    }
  }

  /** A reply made only of whitespace (and bytes that do not decode)
      normalizes to the empty string, whatever command was sent. */
  lemma NormalizeWhitespaceOnly(raw: seq<Byte>, cmd: seq<Byte>)
    requires DecodesWithin(raw, Whitespace)
    ensures Normalize(raw, cmd) == []
  {
    DecodeWithin(raw, Whitespace);
    StripAllOf(Decode(raw), Whitespace);
    StripAllOf([], Framing);
  }

  /** Whitespace between framing characters survives, because whitespace is
      trimmed before the framing is: `!\t!`, sent back for `XR?\r`,
      normalizes to a lone tab. */
  lemma NormalizeMixedExample(raw: seq<Byte>, cmd: seq<Byte>)
    requires raw == [33, 9, 33] && cmd == [88, 82, 63, 13]
    ensures Normalize(raw, cmd) == "\t"
  {
    TrimmedBangTab();
    TrimmedQuery();
    var s, echo := Trimmed(raw), Trimmed(cmd);
    assert !StartsWith(s, echo) by {
      assert s[0] != echo[0];
    }
    assert '!' in Framing && '\t' !in Framing;
    assert LeadEnd(s, Framing, 0) == 1;
    assert TrailStart(s, Framing, 1, 3) == 2;
  }

  /** Helper for `NormalizeMixedExample`: the reply `!\t!` trims to itself. */
  lemma TrimmedBangTab()
    ensures Trimmed([33, 9, 33]) == "!\t!"
  {
    var raw: seq<Byte> := [33, 9, 33];
    assert Decode(raw) == "!\t!" by {
      assert Decode(raw[2..]) == "!";
      assert Decode(raw[1..]) == ['\t'] + Decode(raw[2..]);
    }
    StripUnique("!\t!", Whitespace, 0, 3);
  }

  /** Helper for `NormalizeMixedExample`: the command `XR?\r` trims to `XR?`. */
  lemma TrimmedQuery()
    ensures Trimmed([88, 82, 63, 13]) == "XR?"
  {
    var cmd: seq<Byte> := [88, 82, 63, 13];
    assert Decode(cmd) == "XR?\r" by {
      assert Decode(cmd[3..]) == "\r";
      assert Decode(cmd[2..]) == ['?'] + Decode(cmd[3..]);
      assert Decode(cmd[1..]) == ['R'] + Decode(cmd[2..]);
    }
    StripUnique("XR?\r", Whitespace, 0, 3);
  }

  /** A device that answers the first identification command with its model
      number and a carriage return: the reply normalizes to `MDT693B`. */
  lemma NormalizeModelReply(raw: seq<Byte>, cmd: seq<Byte>)
    requires |raw| == 8 && raw[0] == 77 && raw[1] == 68 && raw[2] == 84 && raw[3] == 54
    requires raw[4] == 57 && raw[5] == 51 && raw[6] == 66 && raw[7] == 13
    requires cmd == [88, 82, 63, 13]
    ensures Normalize(raw, cmd) == "MDT693B"
  {
    TrimmedModel(raw);
    TrimmedQuery();
    assert !Echoes(raw, cmd) by {
      assert Trimmed(raw)[0] != Trimmed(cmd)[0];
    }
    NormalizePlain(raw, cmd, "MDT693B");
  }

  /** A reply that does not echo the command and whose trimmed text has no
      framing character at either end comes out as that trimmed text. */
  lemma {:induction false} NormalizePlain(raw: seq<Byte>, cmd: seq<Byte>, s: string)
    requires Trimmed(raw) == s && s != [] && s[0] !in Framing && s[|s| - 1] !in Framing
    requires !Echoes(raw, cmd)
    ensures Normalize(raw, cmd) == s
  {
    assert Normalize(raw, cmd) == Strip(s, Framing);
    StripUnique(s, Framing, 0, |s|);
  }

  /** Helper for `NormalizeModelReply`: `MDT693B\r` trims to `MDT693B`. */
  lemma TrimmedModel(raw: seq<Byte>)
    requires |raw| == 8 && raw[0] == 77 && raw[1] == 68 && raw[2] == 84 && raw[3] == 54
    requires raw[4] == 57 && raw[5] == 51 && raw[6] == 66 && raw[7] == 13
    ensures Trimmed(raw) == "MDT693B"
  {
    DecodeAsciiBytes(raw);
    var d := Decode(raw);
    assert d == "MDT693B\r";
    StripUnique(d, Whitespace, 0, 7);
  }

  /** Bytes below 128 decode one character per byte, each with the byte's code. */
  lemma {:induction false} DecodeAsciiBytes(raw: seq<Byte>)
    requires forall k :: 0 <= k < |raw| ==> raw[k] < 128
    ensures |Decode(raw)| == |raw|
    ensures forall k :: 0 <= k < |raw| ==> Decode(raw)[k] as int == raw[k] as int
  {
    EncodeDecode(raw);
    var d := Decode(raw);
    forall k | 0 <= k < |raw|
      ensures d[k] as int == raw[k] as int
    {
      assert Encode(d)[k] as int == d[k] as int;
    }
  }

  /** The empty reply normalizes to the empty string. */
  lemma {:induction false} NormalizeEmpty(cmd: seq<Byte>)
    ensures Normalize([], cmd) == []
  {
    NormalizeFramingOnly([], cmd);
  }
}
