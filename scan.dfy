/**
 * The scan over all enumerated ports (`scan_ports`) and the summary printed
 * for it. The result is an insertion-ordered dictionary from device name to
 * verdict: a name enumerated twice keeps the position of its first
 * occurrence and the verdict of its last probe.
 */
module PortScan {
  import opened Wrappers
  import opened Reply
  import opened PortProbe

  /** One enumerated port: its device name and the metadata reported for it. */
  datatype PortInfo = PortInfo(device: string, meta: PortMeta)

  /** The results dictionary: `keys` in insertion order, `entries` the values. */
  datatype ScanResult = ScanResult(keys: seq<string>, entries: map<string, Verdict>)

  /** No name appears twice in `s`. */
  predicate Distinct(s: seq<string>) {
    forall i, j :: 0 <= i < j < |s| ==> s[i] != s[j]
  }

  /** A well-formed dictionary: every key once, and exactly the keys that
      have a value. */
  predicate Valid(r: ScanResult) {
    Distinct(r.keys) &&
    (forall k :: k in r.entries ==> k in r.keys) && (forall k :: k in r.keys ==> k in r.entries)
  }

  /** `d[k] = v` on an insertion-ordered dictionary: a new key goes last, an
      existing key keeps its place and gets the new value. */
  function Put(r: ScanResult, k: string, v: Verdict): (r': ScanResult)
    ensures r'.entries == r.entries[k := v]
    ensures k in r.entries ==> r'.keys == r.keys
    ensures k !in r.entries ==> r'.keys == r.keys + [k]
  {
    if k in r.entries then ScanResult(r.keys, r.entries[k := v])
    else ScanResult(r.keys + [k], r.entries[k := v])
  }

  /** Assignment keeps a dictionary well-formed. */
  lemma PutValid(r: ScanResult, k: string, v: Verdict)
    requires Valid(r)
    ensures Valid(Put(r, k, v))
  {
    var r' := Put(r, k, v);
    if k !in r.entries {
      forall i, j | 0 <= i < j < |r'.keys| ensures r'.keys[i] != r'.keys[j] {
        if j == |r.keys| {
          assert r'.keys[i] == r.keys[i];
        } else {
          assert r'.keys[i] == r.keys[i] && r'.keys[j] == r.keys[j];
        }
      }
    }
  }

  /** The device names in enumeration order. */
  function Names(ports: seq<PortInfo>): (names: seq<string>)
    ensures |names| == |ports|
    ensures forall i :: 0 <= i < |ports| ==> names[i] == ports[i].device
  {
    seq(|ports|, i requires 0 <= i < |ports| => ports[i].device)
  }

  /** The position of the last occurrence of `name`, or -1 if there is none. */
  function LastIndex(names: seq<string>, name: string): (i: int)
    ensures -1 <= i < |names|
    ensures i >= 0 ==> names[i] == name
    ensures forall j :: i < j < |names| ==> names[j] != name
  {
    if names == [] then -1
    else if names[|names| - 1] == name then |names| - 1
    else LastIndex(names[..|names| - 1], name)
  }

  /** `ports.get(name)` on the dictionary `{p.device: p for p in ports}`:
      the metadata of the last port called `name`, if any. */
  function Lookup(ports: seq<PortInfo>, name: string): (m: Option<PortMeta>)
    ensures m.None? <==> forall j :: 0 <= j < |ports| ==> ports[j].device != name
  {
    var i := LastIndex(Names(ports), name);
    if i >= 0 then Some(ports[i].meta) else None
  }

  /** One outcome per enumerated port, each fitting the command list. */
  predicate OutcomesFit(ports: seq<PortInfo>, outcomes: seq<PortOutcome>, commands: seq<seq<Byte>>) {
    |outcomes| == |ports| && forall i :: 0 <= i < |outcomes| ==> Fits(commands, outcomes[i])
  }

  /** The verdict of probing each enumerated port in turn; port `i` answers
      as `outcomes[i]`, and each probe looks its metadata up in the whole
      enumeration. */
  function Verdicts(ports: seq<PortInfo>, outcomes: seq<PortOutcome>, commands: seq<seq<Byte>>): (vs: seq<Verdict>)
    requires OutcomesFit(ports, outcomes, commands)
    ensures |vs| == |ports|
  {
    seq(|ports|, i requires 0 <= i < |ports| =>
      Probe(ports[i].device, Lookup(ports, ports[i].device), commands, outcomes[i]))
  }

  /** The dictionary after assigning `values[i]` to `names[i]` for the
      first `n` positions in order. */
  function Build(names: seq<string>, values: seq<Verdict>, n: nat): ScanResult
    requires |values| == |names| && n <= |names|
  {
    if n == 0 then ScanResult([], map[])
    else Put(Build(names, values, n - 1), names[n - 1], values[n - 1])
  }

  /** The results of `scan_ports`. */
  function Scan(ports: seq<PortInfo>, outcomes: seq<PortOutcome>, commands: seq<seq<Byte>>): ScanResult
    requires OutcomesFit(ports, outcomes, commands)
  {
    Build(Names(ports), Verdicts(ports, outcomes, commands), |ports|)
  }

  /** `scan_ports`: probes every enumerated port in order and records its
      verdict under its device name. */
  method ScanPorts(ports: seq<PortInfo>, outcomes: seq<PortOutcome>, commands: seq<seq<Byte>>)
    returns (r: ScanResult)
    requires OutcomesFit(ports, outcomes, commands)
    ensures r == Scan(ports, outcomes, commands)
  {
    ghost var names, vs := Names(ports), Verdicts(ports, outcomes, commands);
    var keys: seq<string> := [];
    var entries: map<string, Verdict> := map[];
    for i := 0 to |ports|
      invariant ScanResult(keys, entries) == Build(names, vs, i)
    {
      var name := ports[i].device;
      var v, _ := ProbePort(name, Lookup(ports, name), commands, outcomes[i]);
      assert v == vs[i];
      if name !in entries {
        keys := keys + [name];
      }
      entries := entries[name := v];
    }
    r := ScanResult(keys, entries);
  }

  // ---------------------------------------------------------------------------
  // Properties of the scan
  // ---------------------------------------------------------------------------

  /** `Dedup(s)`: the elements of `s` in order of first occurrence. */
  function Dedup(s: seq<string>): seq<string> {
    if s == [] then []
    else
      var d := Dedup(s[..|s| - 1]);
      if s[|s| - 1] in d then d else d + [s[|s| - 1]]
  }

  /** `Dedup` keeps every element once and nothing else. */
  lemma {:induction false} DedupSpec(s: seq<string>)
    ensures Distinct(Dedup(s))
    ensures forall x :: x in Dedup(s) <==> x in s
  {
    if s != [] {
      var p := s[..|s| - 1];
      DedupSpec(p);
      assert forall x :: x in s <==> x in p || x == s[|s| - 1];
    }
  }

  /** On distinct names, `Dedup` changes nothing. */
  lemma {:induction false} DedupDistinct(s: seq<string>)
    requires Distinct(s)
    ensures Dedup(s) == s
  {
    if s != [] {
      var p := s[..|s| - 1];
      DedupDistinct(p);
      assert s == p + [s[|s| - 1]];
    }
  }

  /** The dictionary built is well-formed, its keys are the names in order
      of first occurrence, and each name holds the value assigned at its
      last occurrence. */
  lemma BuildSpec(names: seq<string>, values: seq<Verdict>, n: nat)
    requires |values| == |names| && n <= |names|
    ensures var r := Build(names, values, n);
      Valid(r) && r.keys == Dedup(names[..n]) &&
      forall k :: k in r.entries ==>
        LastIndex(names[..n], k) >= 0 && r.entries[k] == values[LastIndex(names[..n], k)]
  {
    BuildKeys(names, values, n);
    BuildValues(names, values, n);
  }

  /** The keys of the dictionary built: each name once, in order of first
      assignment. */
  lemma {:induction false} BuildKeys(names: seq<string>, values: seq<Verdict>, n: nat)
    requires |values| == |names| && n <= |names|
    ensures Valid(Build(names, values, n)) && Build(names, values, n).keys == Dedup(names[..n])
  {
    if n > 0 {
      BuildKeys(names, values, n - 1);
      PutValid(Build(names, values, n - 1), names[n - 1], values[n - 1]);
      assert names[..n][..n - 1] == names[..n - 1];
    }
  }

  /** The values of the dictionary built: each name holds the value assigned
      at its last occurrence. */
  lemma {:induction false} BuildValues(names: seq<string>, values: seq<Verdict>, n: nat)
    requires |values| == |names| && n <= |names|
    ensures var r := Build(names, values, n);
      forall k :: k in r.entries ==>
        LastIndex(names[..n], k) >= 0 && r.entries[k] == values[LastIndex(names[..n], k)]
  {
    if n > 0 {
      BuildValues(names, values, n - 1);
      var r := Build(names, values, n);
      forall k | k in r.entries
        ensures LastIndex(names[..n], k) >= 0
        ensures r.entries[k] == values[LastIndex(names[..n], k)]
      {
        if k != names[n - 1] {
          assert names[..n][..n - 1] == names[..n - 1];
          assert LastIndex(names[..n], k) == LastIndex(names[..n - 1], k);
        }
      }
    }
  }

  /** The scan's results: a well-formed dictionary whose keys are the
      enumerated names in order of first enumeration, and whose entry for a
      name is the verdict of probing the last port with that name, with that
      port's metadata and under that name. */
  lemma ScanSpec(ports: seq<PortInfo>, outcomes: seq<PortOutcome>, commands: seq<seq<Byte>>)
    requires OutcomesFit(ports, outcomes, commands)
    ensures var r := Scan(ports, outcomes, commands);
      Valid(r) && r.keys == Dedup(Names(ports)) &&
      forall k :: k in r.entries ==>
        var i := LastIndex(Names(ports), k);
        i >= 0 && r.entries[k].port == k &&
        r.entries[k] == Probe(k, Some(ports[i].meta), commands, outcomes[i])
  {
    var names, vs := Names(ports), Verdicts(ports, outcomes, commands);
    BuildSpec(names, vs, |ports|);
    assert names[..|ports|] == names;
  }

  /** With distinct device names (the usual case), the keys are the names in
      enumeration order and port `i`'s entry is the verdict of its own
      probe. */
  lemma DistinctScan(ports: seq<PortInfo>, outcomes: seq<PortOutcome>, commands: seq<seq<Byte>>)
    requires OutcomesFit(ports, outcomes, commands) && Distinct(Names(ports))
    ensures var r := Scan(ports, outcomes, commands);
      r.keys == Names(ports) &&
      forall i :: 0 <= i < |ports| ==>
        ports[i].device in r.entries &&
        r.entries[ports[i].device] == Probe(ports[i].device, Some(ports[i].meta), commands, outcomes[i])
  {
    var names := Names(ports);
    ScanSpec(ports, outcomes, commands);
    DedupDistinct(names);
    var r := Scan(ports, outcomes, commands);
    assert r.keys == names;
    forall i | 0 <= i < |ports|
      ensures ports[i].device in r.entries
      ensures r.entries[ports[i].device] == Probe(ports[i].device, Some(ports[i].meta), commands, outcomes[i])
    {
      var k := names[i];
      assert k in r.keys;
      var j := LastIndex(names, k);
      assert j == i by {
        assert j >= i && names[j] == names[i];
      }
    }
  }
}
