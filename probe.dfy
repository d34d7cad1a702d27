/**
 * The per-port probe (`probe_port`): opens a port, sends each identification
 * command in turn, normalizes and classifies every reply, stops at the first
 * match and otherwise keeps the last non-empty reply. The serial port is
 * replaced by the outcomes it would produce: whether opening failed, and per
 * command whether the write failed or what the two reads returned.
 */
module PortProbe {
  import opened Wrappers
  import opened Reply
  import opened Signature

  /** The identification commands, in the order they are sent:
      `XR?\r`, `ID?\r`, `*IDN?\r`, `XR?\n`, `XR?`. */
  const IdCommands: seq<seq<Byte>> := [
    [88, 82, 63, 13],
    [73, 68, 63, 13],
    [42, 73, 68, 78, 63, 13],
    [88, 82, 63, 10],
    [88, 82, 63]
  ]

  /** The metadata the port enumeration reports for a port; a field the
      platform does not know is `None`. */
  datatype PortMeta = PortMeta(
    manufacturer: Option<string>,
    product: Option<string>,
    vid: Option<int>,
    pid: Option<int>,
    hwid: string)

  /** What one read returned: the bytes, or a read error (which the probe
      treats as no bytes). */
  datatype ReadResult = Got(bytes: seq<Byte>) | ReadFailed

  /** What sending one command produced: the write failed, or it succeeded
      and the first read and the longer second read returned these results.
      The second read only happens when the first returned nothing. */
  datatype Attempt = WriteFailed | Written(first: ReadResult, second: ReadResult)

  /** What the port does when probed: it cannot be opened (with the error
      text), or it opens and answers each command as given. */
  datatype PortOutcome = OpenFailed(error: string) | Opened(attempts: seq<Attempt>)

  /** The result record of one port (the `res` dictionary). `meta` is `None`
      when the port was not found in the enumeration, in which case the
      record has no `manufacturer`, `product`, `vid`, `pid` or `hwid` keys. */
  datatype Verdict = Verdict(
    port: string,
    matched: bool,
    reply: Option<string>,
    openError: Option<string>,
    meta: Option<PortMeta>)

  /** The bytes a read contributes. */
  function BytesOf(r: ReadResult): seq<Byte> {
    match r
    case Got(b) => b
    case ReadFailed => []
  }

  /** The raw reply to a written command: the first read, or the second
      read when the first returned nothing. */
  function RawReply(a: Attempt): (raw: seq<Byte>)
    requires a.Written?
    ensures BytesOf(a.first) != [] ==> raw == BytesOf(a.first)
    ensures BytesOf(a.first) == [] ==> raw == BytesOf(a.second)
    ensures raw == [] <==> BytesOf(a.first) == [] && BytesOf(a.second) == []
  {
    if BytesOf(a.first) != [] then BytesOf(a.first) else BytesOf(a.second)
  }

  /** The normalized reply to one command; a failed write yields no text. */
  function ReplyText(cmd: seq<Byte>, a: Attempt): string {
    if a.WriteFailed? then [] else Normalize(RawReply(a), cmd)
  }

  /** The normalized replies, one per command, in the order the commands
      are sent. */
  function Replies(commands: seq<seq<Byte>>, attempts: seq<Attempt>): (rs: seq<string>)
    requires |attempts| == |commands|
    ensures |rs| == |commands|
  {
    MapPairs(ReplyText, commands, attempts)
  }

  /** Reply `j` is the normalized reply to command `j`. */
  lemma ReplyAt(commands: seq<seq<Byte>>, attempts: seq<Attempt>, j: int)
    requires |attempts| == |commands| && 0 <= j < |commands|
    ensures Replies(commands, attempts)[j] == ReplyText(commands[j], attempts[j])
  {
    MapPairsAt(ReplyText, commands, attempts, j);
  }

  /** `f` applied to the pairs of `xs` and `ys` at equal positions. */
  function MapPairs<A, B, C>(f: (A, B) -> C, xs: seq<A>, ys: seq<B>): (zs: seq<C>)
    requires |xs| == |ys|
    ensures |zs| == |xs|
  {
    if xs == [] then [] else [f(xs[0], ys[0])] + MapPairs(f, xs[1..], ys[1..])
  }

  lemma {:induction false} MapPairsAt<A, B, C>(f: (A, B) -> C, xs: seq<A>, ys: seq<B>, j: int)
    requires |xs| == |ys| && 0 <= j < |xs|
    ensures MapPairs(f, xs, ys)[j] == f(xs[j], ys[j])
  {
    if j > 0 {
      MapPairsAt(f, xs[1..], ys[1..], j - 1);
    }
  }

  /** Removing one pair removes its image and nothing else. */
  lemma {:induction false} MapPairsRemove<A, B, C>(f: (A, B) -> C, xs: seq<A>, ys: seq<B>, i: int)
    requires |xs| == |ys| && 0 <= i < |xs|
    ensures MapPairs(f, xs[..i] + xs[i + 1..], ys[..i] + ys[i + 1..]) ==
            MapPairs(f, xs, ys)[..i] + MapPairs(f, xs, ys)[i + 1..]
  {
    if i == 0 {
      assert xs[..0] + xs[1..] == xs[1..];
      assert ys[..0] + ys[1..] == ys[1..];
    } else {
      var xs', ys' := xs[..i] + xs[i + 1..], ys[..i] + ys[i + 1..];
      assert xs'[0] == xs[0] && ys'[0] == ys[0];
      assert xs'[1..] == xs[1..][..i - 1] + xs[1..][i..];
      assert ys'[1..] == ys[1..][..i - 1] + ys[1..][i..];
      MapPairsRemove(f, xs[1..], ys[1..], i - 1);
    }
  }

  /** The position of the first matching reply, or `|rs|` when none matches. */
  function FirstMatch(rs: seq<string>): (k: nat)
    ensures k <= |rs|
    ensures k < |rs| ==> IsMatch(rs[k])
    ensures forall j :: 0 <= j < k ==> !IsMatch(rs[j])
  {
    if rs == [] then 0
    else if IsMatch(rs[0]) then 0
    else 1 + FirstMatch(rs[1..])
  }

  /** The position of the last non-empty reply, or -1 when every reply is empty. */
  function LastFilled(rs: seq<string>): (k: int)
    ensures -1 <= k < |rs|
    ensures k >= 0 ==> rs[k] != []
    ensures forall j :: k < j < |rs| ==> rs[j] == []
  {
    if rs == [] then -1
    else if rs[|rs| - 1] != [] then |rs| - 1
    else LastFilled(rs[..|rs| - 1])
  }

  /** The last non-empty reply, if any. */
  function LastNonEmpty(rs: seq<string>): Option<string> {
    var k := LastFilled(rs);
    if k >= 0 then Some(rs[k]) else None
  }

  /** The outcomes are well-formed: one attempt per command when the port opens. */
  predicate Fits(commands: seq<seq<Byte>>, outcome: PortOutcome) {
    outcome.Opened? ==> |outcome.attempts| == |commands|
  }

  /** The verdict `probe_port` returns for a port. */
  function Probe(name: string, info: Option<PortMeta>, commands: seq<seq<Byte>>, outcome: PortOutcome): (v: Verdict)
    requires Fits(commands, outcome)
    ensures v.port == name && v.meta == info
    ensures v.openError == (if outcome.OpenFailed? then Some(outcome.error) else None)
    ensures v.openError.Some? ==> !v.matched && v.reply.None?
    ensures v.matched ==> v.reply.Some? && IsMatch(v.reply.value)
    ensures v.reply.Some? ==> v.reply.value != []
  {
    match outcome
    case OpenFailed(e) => Verdict(name, false, None, Some(e), info)
    case Opened(attempts) => Conclude(name, info, Replies(commands, attempts))
  }

  /** The verdict of an opened port from its replies: the first matching
      reply, or else no match and the last non-empty reply. */
  function Conclude(name: string, info: Option<PortMeta>, rs: seq<string>): (v: Verdict)
    ensures v.port == name && v.meta == info && v.openError.None?
    ensures v.matched ==> v.reply.Some? && IsMatch(v.reply.value)
    ensures v.reply.Some? ==> v.reply.value != []
  {
    var k := FirstMatch(rs);
    if k < |rs| then Verdict(name, true, Some(rs[k]), None, info)
    else Verdict(name, false, LastNonEmpty(rs), None, info)
  }

  /** How many commands the probe tries (writes, or attempts to write)
      before it stops; a failed write counts as tried. */
  function CommandsTried(commands: seq<seq<Byte>>, outcome: PortOutcome): (n: nat)
    requires Fits(commands, outcome)
    ensures n <= |commands|
    ensures outcome.OpenFailed? ==> n == 0
  {
    match outcome
    case OpenFailed(_) => 0
    case Opened(attempts) => Tried(Replies(commands, attempts))
  }

  /** How many commands are tried on an opened port with these replies: up
      to and including the first match, or all of them. */
  function Tried(rs: seq<string>): (n: nat)
    ensures n <= |rs|
  {
    var k := FirstMatch(rs);
    if k < |rs| then k + 1 else |rs|
  }

  /** One written command: read, read again if nothing came, normalize. */
  method ReadReply(commands: seq<seq<Byte>>, attempts: seq<Attempt>, i: int) returns (decoded: string)
    requires |attempts| == |commands| && 0 <= i < |commands| && attempts[i].Written?
    ensures decoded == Replies(commands, attempts)[i]
  {
    var raw := BytesOf(attempts[i].first);
    if raw == [] {
      raw := BytesOf(attempts[i].second);
    }
    decoded := Normalize(raw, commands[i]);
    ReplyAt(commands, attempts, i);
  }

  /** The reply to a command whose write failed is empty. */
  lemma FailedWriteNoReply(commands: seq<seq<Byte>>, attempts: seq<Attempt>, i: int)
    requires |attempts| == |commands| && 0 <= i < |commands| && attempts[i].WriteFailed?
    ensures Replies(commands, attempts)[i] == []
  {
    ReplyAt(commands, attempts, i);
  }

  /** The signature checks on a non-empty reply: the textual tokens on the
      upper-cased text first, then the decimal number. */
  method Classify(decoded: string) returns (matched: bool)
    requires decoded != []
    ensures matched == IsMatch(decoded)
  {
    var u := ToUpper(decoded);
    if HasSignatureToken(u) {
      return true;
    }
    if HasDecimal(decoded) {
      return true;
    }
    return false;
  }

  /** `probe_port`: the command loop with its early return on a match. */
  method ProbePort(name: string, info: Option<PortMeta>, commands: seq<seq<Byte>>, outcome: PortOutcome)
    returns (v: Verdict, tried: nat)
    requires Fits(commands, outcome)
    ensures v == Probe(name, info, commands, outcome)
    ensures tried == CommandsTried(commands, outcome)
  {
    v := Verdict(name, false, None, None, info);
    tried := 0;
    if outcome.OpenFailed? {
      v := v.(openError := Some(outcome.error));
      return;
    }
    var attempts := outcome.attempts;
    ghost var rs := Replies(commands, attempts);
    var best: Option<string> := None;
    ghost var last := -1;
    var i := 0;
    while i < |commands|
      invariant 0 <= i <= |commands| && tried == i
      invariant forall j :: 0 <= j < i ==> !IsMatch(rs[j])
      invariant -1 <= last < i
      invariant last >= 0 ==> rs[last] != [] && best == Some(rs[last])
      invariant last < 0 ==> best == None
      invariant forall j :: last < j < i ==> rs[j] == []
      invariant v == Verdict(name, false, None, None, info)
    {
      tried := tried + 1;
      if attempts[i].WriteFailed? {
        FailedWriteNoReply(commands, attempts, i);
        i := i + 1;
        continue;
      }
      var decoded := ReadReply(commands, attempts, i);
      if decoded != [] {
        var matched := Classify(decoded);
        if matched {
          v := v.(matched := true, reply := Some(decoded));
          FirstMatchWins(name, info, rs, i);
          return;
        }
        best := Some(decoded);
        last := i;
      }
      i := i + 1;
    }
    if best.Some? && best.value != [] {
      v := v.(reply := best);
      LastReplyWins(name, info, rs, last);
    } else {
      EmptyRepliesVerdict(name, info, rs);
    }
  }

  /** `FirstMatch` is the only position with a match and no earlier match. */
  lemma FirstMatchIs(rs: seq<string>, k: int)
    requires 0 <= k <= |rs|
    requires k < |rs| ==> IsMatch(rs[k])
    requires forall j :: 0 <= j < k ==> !IsMatch(rs[j])
    ensures FirstMatch(rs) == k
  {
  }

  /** `LastFilled` is the only non-empty position with nothing but empty
      replies after it (or -1 when all are empty). */
  lemma LastFilledIs(rs: seq<string>, k: int)
    requires -1 <= k < |rs|
    requires k >= 0 ==> rs[k] != []
    requires forall j :: k < j < |rs| ==> rs[j] == []
    ensures LastFilled(rs) == k
  {
  }

  // ---------------------------------------------------------------------------
  // Properties of the probe
  // ---------------------------------------------------------------------------

  /** A port that cannot be opened yields its open error, no match and no
      reply, and no command is tried. */
  lemma OpenFailureVerdict(name: string, info: Option<PortMeta>, commands: seq<seq<Byte>>, e: string)
    ensures Probe(name, info, commands, OpenFailed(e)) == Verdict(name, false, None, Some(e), info)
    ensures CommandsTried(commands, OpenFailed(e)) == 0
  {
  }

  /** First match wins: when reply `k` matches and no earlier reply does,
      the verdict is a match carrying reply `k`, and exactly `k + 1`
      commands are tried. */
  lemma FirstMatchWins(name: string, info: Option<PortMeta>, rs: seq<string>, k: int)
    requires 0 <= k < |rs| && IsMatch(rs[k])
    requires forall j :: 0 <= j < k ==> !IsMatch(rs[j])
    ensures Conclude(name, info, rs) == Verdict(name, true, Some(rs[k]), None, info)
    ensures Tried(rs) == k + 1
  {
    FirstMatchIs(rs, k);
  }

  /** Without a match, the last non-empty reply wins: the verdict is no
      match and carries the non-empty reply `k` after which every reply is
      empty, and every command is tried. */
  lemma LastReplyWins(name: string, info: Option<PortMeta>, rs: seq<string>, k: int)
    requires 0 <= k < |rs|
    requires forall j :: 0 <= j < |rs| ==> !IsMatch(rs[j])
    requires rs[k] != [] && forall j :: k < j < |rs| ==> rs[j] == []
    ensures Conclude(name, info, rs) == Verdict(name, false, Some(rs[k]), None, info)
    ensures Tried(rs) == |rs|
  {
    FirstMatchIs(rs, |rs|);
    LastFilledIs(rs, k);
  }

  /** No text, no reply: when every reply is empty, the verdict is no match
      and no reply, and every command is tried. */
  lemma EmptyRepliesVerdict(name: string, info: Option<PortMeta>, rs: seq<string>)
    requires forall j :: 0 <= j < |rs| ==> rs[j] == []
    ensures Conclude(name, info, rs) == Verdict(name, false, None, None, info)
    ensures Tried(rs) == |rs|
  {
    FirstMatchIs(rs, |rs|);
    LastFilledIs(rs, -1);
  }

  /** Replies after the first match are never looked at. */
  lemma LaterRepliesIgnored(name: string, info: Option<PortMeta>, rs: seq<string>, rs': seq<string>, k: int)
    requires 0 <= k < |rs| && k < |rs'| && rs[..k + 1] == rs'[..k + 1]
    requires IsMatch(rs[k])
    ensures Conclude(name, info, rs) == Conclude(name, info, rs')
    ensures Tried(rs) == Tried(rs')
  {
    var f := FirstMatch(rs);
    assert f <= k;
    forall j | 0 <= j <= k ensures rs[j] == rs'[j] {
      assert rs[j] == rs[..k + 1][j];
    }
    FirstMatchIs(rs', f);
  }

  /** A device that answers the first identification command, `XR?\r`, with
      `MDT693B\r`: the probe stops after that one command and reports a match
      whose reply is `MDT693B`, whatever the later attempts would have been. */
  lemma ModelReplyScenario(name: string, info: Option<PortMeta>, attempts: seq<Attempt>)
    requires |attempts| == |IdCommands|
    requires attempts[0].Written? && attempts[0].first == Got([77, 68, 84, 54, 57, 51, 66, 13])
    ensures Probe(name, info, IdCommands, Opened(attempts)) == Verdict(name, true, Some("MDT693B"), None, info)
    ensures CommandsTried(IdCommands, Opened(attempts)) == 1
  {
    ModelReplyText(attempts[0]);
    ClassifyExamples();
    FirstReplyMatches(name, info, IdCommands, attempts);
  }

  /** Helper for `ModelReplyScenario`: the first read `MDT693B\r` answering
      `XR?\r` is the reply `MDT693B`, whatever the second read holds. */
  lemma ModelReplyText(a: Attempt)
    requires a.Written? && a.first == Got([77, 68, 84, 54, 57, 51, 66, 13])
    ensures ReplyText(IdCommands[0], a) == "MDT693B"
  {
    NormalizeModelReply(RawReply(a), IdCommands[0]);
  }

  /** When the reply to the first command matches, the probe sends no other
      command and reports that reply. */
  lemma FirstReplyMatches(name: string, info: Option<PortMeta>, commands: seq<seq<Byte>>, attempts: seq<Attempt>)
    requires |attempts| == |commands| > 0
    requires IsMatch(ReplyText(commands[0], attempts[0]))
    ensures Probe(name, info, commands, Opened(attempts))
         == Verdict(name, true, Some(ReplyText(commands[0], attempts[0])), None, info)
    ensures CommandsTried(commands, Opened(attempts)) == 1
  {
    var rs := Replies(commands, attempts);
    ReplyAt(commands, attempts, 0);
    FirstMatchWins(name, info, rs, 0);
  }

  /** Nothing read means nothing found: when every write fails or every
      read returns nothing, the verdict is no match and no reply, and all
      commands are tried. */
  lemma SilentPortVerdict(name: string, info: Option<PortMeta>, commands: seq<seq<Byte>>, attempts: seq<Attempt>)
    requires |attempts| == |commands|
    requires forall j :: 0 <= j < |attempts| ==>
               (attempts[j].WriteFailed? || (BytesOf(attempts[j].first) == [] && BytesOf(attempts[j].second) == []))
    ensures Probe(name, info, commands, Opened(attempts)) == Verdict(name, false, None, None, info)
    ensures CommandsTried(commands, Opened(attempts)) == |commands|
  {
    var rs := Replies(commands, attempts);
    forall j | 0 <= j < |rs| ensures rs[j] == [] {
      ReplyAt(commands, attempts, j);
      if attempts[j].Written? {
        NormalizeEmpty(commands[j]);
      }
    }
    EmptyRepliesVerdict(name, info, rs);
  }

  /** Commands after the first match are never looked at: changing the
      outcomes of later commands changes neither the verdict nor the
      number of commands tried. */
  lemma LaterAttemptsIgnored(name: string, info: Option<PortMeta>, commands: seq<seq<Byte>>,
                             a: seq<Attempt>, b: seq<Attempt>, k: int)
    requires |a| == |commands| && |b| == |commands| && 0 <= k < |commands|
    requires a[..k + 1] == b[..k + 1]
    requires IsMatch(Replies(commands, a)[k])
    ensures Probe(name, info, commands, Opened(a)) == Probe(name, info, commands, Opened(b))
    ensures CommandsTried(commands, Opened(a)) == CommandsTried(commands, Opened(b))
  {
    var ra, rb := Replies(commands, a), Replies(commands, b);
    forall j | 0 <= j <= k ensures ra[j] == rb[j] {
      assert a[j] == a[..k + 1][j] == b[..k + 1][j] == b[j];
      ReplyAt(commands, a, j);
      ReplyAt(commands, b, j);
    }
    assert ra[..k + 1] == rb[..k + 1];
    LaterRepliesIgnored(name, info, ra, rb, k);
  }

  /** A failed write only skips its command: the verdict is the one of a
      probe in which that command and its outcome were never there. */
  lemma FailedWriteSkipped(name: string, info: Option<PortMeta>, commands: seq<seq<Byte>>,
                           attempts: seq<Attempt>, i: int)
    requires |attempts| == |commands| && 0 <= i < |commands|
    requires attempts[i].WriteFailed?
    ensures Probe(name, info, commands, Opened(attempts)) ==
            Probe(name, info, commands[..i] + commands[i + 1..], Opened(attempts[..i] + attempts[i + 1..]))
  {
    FailedWriteNoReply(commands, attempts, i);
    MapPairsRemove(ReplyText, commands, attempts, i);
    ConcludeSkipsEmpty(name, info, Replies(commands, attempts), i);
  }

  /** Removing an empty reply does not change the verdict. */
  lemma ConcludeSkipsEmpty(name: string, info: Option<PortMeta>, rs: seq<string>, i: int)
    requires 0 <= i < |rs| && rs[i] == []
    ensures Conclude(name, info, rs[..i] + rs[i + 1..]) == Conclude(name, info, rs)
  {
    var rs' := rs[..i] + rs[i + 1..];
    RemovedAt(rs, i);
    FirstMatchSkipsEmpty(rs, rs', i);
    LastFilledSkipsEmpty(rs, rs', i);
  }

  /** `rs'` is `rs` with the element at `i` taken out. */
  predicate Removed(rs: seq<string>, rs': seq<string>, i: int) {
    0 <= i < |rs| && |rs'| == |rs| - 1 &&
    (forall j :: 0 <= j < i ==> rs'[j] == rs[j]) &&
    (forall j :: i <= j < |rs'| ==> rs'[j] == rs[j + 1])
  }

  /** Slicing out position `i` removes that element. */
  lemma RemovedAt(rs: seq<string>, i: int)
    requires 0 <= i < |rs|
    ensures Removed(rs, rs[..i] + rs[i + 1..], i)
  {
  }

  /** Removing an empty reply does not change which reply matches first. */
  lemma FirstMatchSkipsEmpty(rs: seq<string>, rs': seq<string>, i: int)
    requires Removed(rs, rs', i) && rs[i] == []
    ensures var f := FirstMatch(rs);
      FirstMatch(rs') == if f < i then f else f - 1
    ensures FirstMatch(rs) < |rs| <==> FirstMatch(rs') < |rs'|
    ensures FirstMatch(rs) < |rs| ==> rs'[FirstMatch(rs')] == rs[FirstMatch(rs)]
  {
    var f := FirstMatch(rs);
    if f < i {
      assert rs'[f] == rs[f];
      FirstMatchIs(rs', f);
    } else {
      assert f != i by {
        NoDigitsNoTokenNoMatch(rs[i]);
      }
      forall j | i <= j < f - 1 ensures !IsMatch(rs'[j]) {
        assert rs'[j] == rs[j + 1];
      }
      if f < |rs| { assert rs'[f - 1] == rs[f]; }
      FirstMatchIs(rs', f - 1);
      assert f - 1 < |rs'| <==> f < |rs|;
    }
  }

  /** Removing an empty reply does not change which reply is the last
      non-empty one. */
  lemma LastFilledSkipsEmpty(rs: seq<string>, rs': seq<string>, i: int)
    requires Removed(rs, rs', i) && rs[i] == []
    ensures var l := LastFilled(rs);
      LastFilled(rs') == (if l < i then l else l - 1)
    ensures LastFilled(rs) >= 0 <==> LastFilled(rs') >= 0
    ensures LastFilled(rs) >= 0 ==> rs'[LastFilled(rs')] == rs[LastFilled(rs)]
  {
    var l := LastFilled(rs);
    if l < i {
      forall j | i <= j < |rs'| ensures rs'[j] == [] {
        assert rs'[j] == rs[j + 1];
      }
      if l >= 0 { assert rs'[l] == rs[l]; }
      LastFilledIs(rs', l);
    } else {
      assert rs'[l - 1] == rs[l];
      LastFilledIs(rs', l - 1);
    }
  }
}
