/**
 * The summary printed after a scan: one line per results entry, in the
 * dictionary's order, of the form
 * `<port>: match=<MATCH|no> manuf=<m> product=<p> reply=<r>`, where a
 * missing manufacturer, product or reply prints as the empty string.
 */
module Summary {
  import opened Wrappers
  import opened Reply
  import opened PortProbe
  import opened PortScan

  /** The status word: `MATCH` for a match, `no` otherwise. */
  function StatusText(matched: bool): string {
    if matched then "MATCH" else "no"
  }

  /** `x or ''` for an optional text: a missing (or empty) text prints as
      the empty string. */
  function OrEmpty(x: Option<string>): (s: string)
    ensures x.Some? ==> s == x.value
    ensures x.None? ==> s == []
  {
    x.GetOr([])
  }

  /** `info.get('manufacturer') or ''`: empty when the port was not found in
      the enumeration or reported no manufacturer. */
  function ManufacturerText(v: Verdict): string {
    if v.meta.Some? then OrEmpty(v.meta.value.manufacturer) else []
  }

  /** `info.get('product') or ''`. */
  function ProductText(v: Verdict): string {
    if v.meta.Some? then OrEmpty(v.meta.value.product) else []
  }

  /** The summary line for one port. */
  function SummaryLine(port: string, v: Verdict): string {
    port + ": match=" + StatusText(v.matched) + Fields(v)
  }

  /** The fields after the status word. */
  function Fields(v: Verdict): string {
    " manuf=" + ManufacturerText(v) + " product=" + ProductText(v) + " reply=" + OrEmpty(v.reply)
  }

  /** The summary: one line per entry, in the dictionary's order. */
  function SummaryLines(r: ScanResult): (lines: seq<string>)
    requires Valid(r)
    ensures |lines| == |r.keys|
  {
    seq(|r.keys|, i requires 0 <= i < |r.keys| => SummaryLine(r.keys[i], r.entries[r.keys[i]]))
  }

  /** `s` ends with `t`. */
  predicate EndsWith(s: string, t: string) {
    |t| <= |s| && s[|s| - |t|..] == t
  }

  /** The status field reads `MATCH` exactly when the verdict is a match:
      the line begins with `<port>: match=MATCH` if and only if `matched`. */
  lemma StatusReportsMatch(port: string, v: Verdict)
    ensures StartsWith(SummaryLine(port, v), port + ": match=" + "MATCH") <==> v.matched
  {
    var head := port + ": match=";
    var rest := StatusText(v.matched) + Fields(v);
    assert SummaryLine(port, v) == head + rest;
    StartsWithAppend(head, rest, "MATCH");
    StatusWord(v.matched, Fields(v));
  }

  /** The status word followed by anything starts with `MATCH` exactly for
      a match. */
  lemma StatusWord(matched: bool, tail: string)
    ensures StartsWith(StatusText(matched) + tail, "MATCH") <==> matched
  {
    if !matched {
      assert (StatusText(matched) + tail)[0] == 'n';
    }
  }

  /** A common head does not change whether one text starts with another. */
  lemma StartsWithAppend(h: string, rest: string, p: string)
    ensures StartsWith(h + rest, h + p) <==> StartsWith(rest, p)
  {
    if |p| <= |rest| {
      assert (h + rest)[..|h| + |p|] == h + rest[..|p|];
      if (h + rest)[..|h| + |p|] == h + p {
        assert rest[..|p|] == (h + rest[..|p|])[|h|..] == (h + p)[|h|..] == p;
      }
    }
  }

  /** The line ends with the reply text, right after ` reply=`; a verdict
      without a reply ends the line with ` reply=`. */
  lemma LineEndsWithReply(port: string, v: Verdict)
    ensures EndsWith(SummaryLine(port, v), " reply=" + OrEmpty(v.reply))
    ensures v.reply.None? ==> EndsWith(SummaryLine(port, v), " reply=")
  {
    var front := port + ": match=" + StatusText(v.matched) + " manuf=" + ManufacturerText(v) +
                 " product=" + ProductText(v);
    assert SummaryLine(port, v) == front + (" reply=" + OrEmpty(v.reply));
  }

  /** A port without enumeration metadata, or found but reporting neither a
      manufacturer nor a product, prints empty manufacturer and product
      fields. */
  lemma MissingMetaPrintsEmpty(port: string, v: Verdict)
    requires v.meta.None? || (v.meta.value.manufacturer.None? && v.meta.value.product.None?)
    ensures SummaryLine(port, v) ==
            port + ": match=" + StatusText(v.matched) + " manuf= product= reply=" + OrEmpty(v.reply)
  {
  }

  /** Each metadata field prints empty exactly when the port was not
      enumerated, or reported no value, or reported an empty one; a reported
      value prints as itself. */
  lemma FieldTexts(v: Verdict)
    ensures ManufacturerText(v) == [] <==>
      v.meta.None? || v.meta.value.manufacturer.None? || v.meta.value.manufacturer.value == []
    ensures ProductText(v) == [] <==>
      v.meta.None? || v.meta.value.product.None? || v.meta.value.product.value == []
    ensures v.meta.Some? && v.meta.value.manufacturer.Some? ==>
      ManufacturerText(v) == v.meta.value.manufacturer.value
    ensures v.meta.Some? && v.meta.value.product.Some? ==>
      ProductText(v) == v.meta.value.product.value
  {
  }

  /** In a scan every entry carries the enumeration's metadata, so its
      manufacturer and product fields print what the last port with that
      name reported, and the empty string for a field it did not report. */
  lemma ScanFieldTexts(ports: seq<PortInfo>, outcomes: seq<PortOutcome>, commands: seq<seq<Byte>>, k: string)
    requires OutcomesFit(ports, outcomes, commands) && k in Scan(ports, outcomes, commands).entries
    ensures var v := Scan(ports, outcomes, commands).entries[k];
      var i := LastIndex(Names(ports), k);
      0 <= i < |ports| && v.meta == Some(ports[i].meta) &&
      ManufacturerText(v) == OrEmpty(ports[i].meta.manufacturer) &&
      ProductText(v) == OrEmpty(ports[i].meta.product)
  {
    ScanSpec(ports, outcomes, commands);
  }

  /** A port that cannot be opened prints `match=no` and an empty reply. */
  lemma OpenFailureLine(port: string, info: Option<PortMeta>, commands: seq<seq<Byte>>, e: string)
    ensures var v := Probe(port, info, commands, OpenFailed(e));
      SummaryLine(port, v) ==
      port + ": match=no manuf=" + ManufacturerText(v) + " product=" + ProductText(v) + " reply="
  {
  }

  /** The summary has one line per entry, in the dictionary's order, and
      line `i` starts with key `i` and reads `MATCH` exactly when that
      entry's verdict is a match. */
  lemma SummaryLinesSpec(r: ScanResult)
    requires Valid(r)
    ensures forall i :: 0 <= i < |r.keys| ==>
      StartsWith(SummaryLines(r)[i], r.keys[i] + ": match=") &&
      (StartsWith(SummaryLines(r)[i], r.keys[i] + ": match=" + "MATCH") <==> r.entries[r.keys[i]].matched)
  {
    forall i | 0 <= i < |r.keys|
      ensures StartsWith(SummaryLines(r)[i], r.keys[i] + ": match=")
      ensures StartsWith(SummaryLines(r)[i], r.keys[i] + ": match=" + "MATCH") <==> r.entries[r.keys[i]].matched
    {
      var k := r.keys[i];
      assert SummaryLines(r)[i] == SummaryLine(k, r.entries[k]);
      LineHead(k, r.entries[k]);
      StatusReportsMatch(k, r.entries[k]);
    }
  }

  /** Every line starts with its port name and `: match=`. */
  lemma LineHead(port: string, v: Verdict)
    ensures StartsWith(SummaryLine(port, v), port + ": match=")
  {
    var head := port + ": match=";
    assert SummaryLine(port, v) == head + (StatusText(v.matched) + Fields(v));
  }

  /** With distinct device names, the summary has one line per enumerated
      port, in enumeration order: line `i` starts with port `i`'s name and
      reads `MATCH` exactly when that port's entry is a match. */
  lemma ScanSummary(ports: seq<PortInfo>, outcomes: seq<PortOutcome>, commands: seq<seq<Byte>>)
    requires OutcomesFit(ports, outcomes, commands) && Distinct(Names(ports))
    ensures var r := Scan(ports, outcomes, commands);
      Valid(r) && |SummaryLines(r)| == |ports| &&
      forall i :: 0 <= i < |ports| ==>
        ports[i].device in r.entries &&
        StartsWith(SummaryLines(r)[i], ports[i].device + ": match=") &&
        (StartsWith(SummaryLines(r)[i], ports[i].device + ": match=" + "MATCH") <==>
         r.entries[ports[i].device].matched)
  {
    ScanSpec(ports, outcomes, commands);
    DistinctScan(ports, outcomes, commands);
    SummaryLinesSpec(Scan(ports, outcomes, commands));
  }
}
