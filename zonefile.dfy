/** The zone-file formatter: the `$ORIGIN` line followed by one
    `name IN ttl type [priority] value` line per record that survives
    deduplication, in the master-file format of section 5 of RFC 1035. */
module ZoneFile {
  import opened Wrappers
  import opened Text
  import opened Records
  import opened Redirects

  // ---------------------------------------------------------------------
  // Specification of the generated text

  /** The header line: `$ORIGIN <zone name>.` and a newline. */
  function OriginLine(zone: DnsZone): string
  {
    "$ORIGIN " + zone.name + "." + "\n"
  }

  /** The priority field: nothing when the priority is zero, otherwise a tab
      and the decimal priority. */
  function PrioritySegment(priority: int): (r: string)
    ensures r == [] <==> priority == 0
    ensures priority != 0 ==> r[0] == '\t' && r[1..] == Decimal(priority)
  {
    if priority != 0 then "\t" + Decimal(priority)
    else ""
  }

  /** The value written for a record before any redirect: its own value,
      with a `.` appended when its original type is hostname-valued. */
  function OwnValue(rec: DnsRecord): string
  {
    if IsHostnameValued(rec.recordType) then rec.value + "." else rec.value
  }

  /** The value written for a record: the destination of the first redirect
      rule that matches its hostname, or else its own value. */
  function RecordValue(rec: DnsRecord, redirects: seq<Redirect>, hostOf: HostParser): string
  {
    Redirected(rec.hostname, redirects, hostOf, OwnValue(rec))
  }

  /** With no rule matching, a `CNAME`, `NETLIFY` or `NETLIFYv6` record gets
      its value with a `.` appended and any other record its value unchanged;
      the type before aliasing decides. With a rule matching, the first such
      rule's cleaned destination is written as it is, whatever the type. */
  lemma RecordValueSpec(rec: DnsRecord, redirects: seq<Redirect>, hostOf: HostParser)
    ensures (forall i :: 0 <= i < |redirects| ==> !MatchRedirectRule(rec.hostname, redirects[i].fromRule, hostOf))
              ==> RecordValue(rec, redirects, hostOf)
                  == if rec.recordType in {Cname, Netlify, NetlifyV6} then rec.value + "." else rec.value
    ensures forall i :: 0 <= i < |redirects| && MatchRedirectRule(rec.hostname, redirects[i].fromRule, hostOf)
              && (forall j :: 0 <= j < i ==> !MatchRedirectRule(rec.hostname, redirects[j].fromRule, hostOf))
              ==> RecordValue(rec, redirects, hostOf) == ExtractDestination(redirects[i].toRule)
  {
    RedirectedSpec(rec.hostname, redirects, hostOf, OwnValue(rec));
  }

  /** One resource-record line, fields separated by tabs. */
  function RecordLine(rec: DnsRecord, redirects: seq<Redirect>, hostOf: HostParser): string
  {
    Name(rec) + "\tIN\t" + Decimal(rec.ttl) + "\t" + TypeWithReplacement(rec.recordType)
      + PrioritySegment(rec.priority) + "\t" + RecordValue(rec, redirects, hostOf) + "\n"
  }

  /** The fields of a line in order: name, class `IN`, TTL, type, then the
      priority only when it is not zero, then the value. */
  lemma RecordLineLayout(rec: DnsRecord, redirects: seq<Redirect>, hostOf: HostParser)
    ensures rec.priority == 0 ==>
              RecordLine(rec, redirects, hostOf)
              == rec.hostname + "." + "\tIN\t" + Decimal(rec.ttl) + "\t" + TypeWithReplacement(rec.recordType)
                 + "\t" + RecordValue(rec, redirects, hostOf) + "\n"
    ensures rec.priority != 0 ==>
              RecordLine(rec, redirects, hostOf)
              == rec.hostname + "." + "\tIN\t" + Decimal(rec.ttl) + "\t" + TypeWithReplacement(rec.recordType)
                 + "\t" + Decimal(rec.priority) + "\t" + RecordValue(rec, redirects, hostOf) + "\n"
  {
  }

  /** The lines of `records`, one per record, in order. */
  function RecordLines(records: seq<DnsRecord>, redirects: seq<Redirect>, hostOf: HostParser): string
    decreases |records|
  {
    if records == [] then ""
    else
      var n := |records| - 1;
      RecordLines(records[..n], redirects, hostOf) + RecordLine(records[n], redirects, hostOf)
  }

  /** The text of the zone file for `zone`, its `records` and `redirects`. */
  function ZoneFileText(zone: DnsZone, records: seq<DnsRecord>, redirects: seq<Redirect>, hostOf: HostParser): string
  {
    OriginLine(zone) + RecordLines(Deduplicate(records), redirects, hostOf)
  }

  // ---------------------------------------------------------------------
  // The generator

  /** Writes the `$ORIGIN` line, then walks the records in order: a record
      whose name was already seen is skipped; otherwise its value, priority
      field and redirect replacement are worked out and its line appended. */
  method GenerateZoneFile(zone: DnsZone, records: seq<DnsRecord>, redirects: seq<Redirect>, hostOf: HostParser)
    returns (zoneFile: string)
    ensures zoneFile == ZoneFileText(zone, records, redirects, hostOf)
  {
    zoneFile := "$ORIGIN " + zone.name + "." + "\n";
    var processedNames: map<string, bool> := map[];
    for i := 0 to |records|
      invariant processedNames.Keys == Names(records[..i])
      invariant zoneFile == ZoneFileText(zone, records[..i], redirects, hostOf)
    {
      var rec := records[i];
      var name := rec.hostname + ".";
      DeduplicateStep(records, i);
      if name in processedNames {
        ZoneFileTextStep(zone, records, i, redirects, hostOf);
        continue;
      }
      assert processedNames[name := true].Keys == processedNames.Keys + {name};
      processedNames := processedNames[name := true];

      var value: string;
      if IsHostnameValued(rec.recordType) {
        value := rec.value + ".";
      } else {
        value := rec.value;
      }
      var priority := "";
      if rec.priority != 0 {
        priority := "\t" + Decimal(rec.priority);
      }
      value := ApplyRedirects(rec.hostname, redirects, hostOf, value);

      var line := name + "\tIN\t" + Decimal(rec.ttl) + "\t" + TypeWithReplacement(rec.recordType)
        + priority + "\t" + value + "\n";
      RecordLineFromFields(rec, redirects, hostOf, priority, value, line);
      ZoneFileTextStep(zone, records, i, redirects, hostOf);
      zoneFile := zoneFile + line;
    }
    assert records[..|records|] == records;
  }

  /** One step of the loop: record `i` adds its line exactly when its name
      has not been seen. */
  lemma ZoneFileTextStep(zone: DnsZone, records: seq<DnsRecord>, i: int, redirects: seq<Redirect>, hostOf: HostParser)
    requires 0 <= i < |records|
    ensures Name(records[i]) in Names(records[..i]) ==>
              ZoneFileText(zone, records[..i + 1], redirects, hostOf) == ZoneFileText(zone, records[..i], redirects, hostOf)
    ensures Name(records[i]) !in Names(records[..i]) ==>
              ZoneFileText(zone, records[..i + 1], redirects, hostOf)
              == ZoneFileText(zone, records[..i], redirects, hostOf) + RecordLine(records[i], redirects, hostOf)
  {
    DeduplicateStep(records, i);
    RecordLinesAppend(Deduplicate(records[..i]), records[i], redirects, hostOf);
    ConcatAssoc(OriginLine(zone), RecordLines(Deduplicate(records[..i]), redirects, hostOf), RecordLine(records[i], redirects, hostOf));
  }

  /** The line the loop body assembles is the record's line. */
  lemma RecordLineFromFields(rec: DnsRecord, redirects: seq<Redirect>, hostOf: HostParser,
                             priority: string, value: string, line: string)
    requires priority == (if rec.priority != 0 then "\t" + Decimal(rec.priority) else "")
    requires value == RecordValue(rec, redirects, hostOf)
    requires line == rec.hostname + "." + "\tIN\t" + Decimal(rec.ttl) + "\t" + TypeWithReplacement(rec.recordType)
                     + priority + "\t" + value + "\n"
    ensures line == RecordLine(rec, redirects, hostOf)
  {
  }

  lemma RecordLinesAppend(records: seq<DnsRecord>, rec: DnsRecord, redirects: seq<Redirect>, hostOf: HostParser)
    ensures RecordLines(records + [rec], redirects, hostOf) == RecordLines(records, redirects, hostOf) + RecordLine(rec, redirects, hostOf)
  {
    assert (records + [rec])[..|records|] == records;
  }

  // ---------------------------------------------------------------------
  // Properties of the generated text

  /** The text is the `$ORIGIN` line followed by the lines of the records at
      the first occurrence of each hostname, in input order; there are as
      many of them as there are distinct hostnames. */
  lemma ZoneFileLayout(zone: DnsZone, records: seq<DnsRecord>, redirects: seq<Redirect>, hostOf: HostParser)
    ensures "$ORIGIN " + zone.name + "." + "\n" <= ZoneFileText(zone, records, redirects, hostOf)
    ensures ZoneFileText(zone, records, redirects, hostOf)
              == OriginLine(zone) + RecordLines(Select(records, FirstOccurrences(records)), redirects, hostOf)
    ensures |FirstOccurrences(records)| == |Hostnames(records)|
  {
    DeduplicateIsSelection(records);
    DeduplicateCount(records);
  }

  /** A record whose hostname was already seen adds nothing to the text. */
  lemma AppendDuplicateAddsNothing(zone: DnsZone, records: seq<DnsRecord>, rec: DnsRecord,
                                   redirects: seq<Redirect>, hostOf: HostParser)
    requires rec.hostname in Hostnames(records)
    ensures ZoneFileText(zone, records + [rec], redirects, hostOf) == ZoneFileText(zone, records, redirects, hostOf)
  {
    NamesMembership(records, rec);
    assert (records + [rec])[..|records|] == records;
  }

  /** A record with a new hostname adds exactly its own line at the end. */
  lemma AppendNewAddsItsLine(zone: DnsZone, records: seq<DnsRecord>, rec: DnsRecord,
                             redirects: seq<Redirect>, hostOf: HostParser)
    requires rec.hostname !in Hostnames(records)
    ensures ZoneFileText(zone, records + [rec], redirects, hostOf)
              == ZoneFileText(zone, records, redirects, hostOf) + RecordLine(rec, redirects, hostOf)
  {
    NamesMembership(records, rec);
    assert (records + [rec])[..|records|] == records;
    var kept := Deduplicate(records);
    assert Deduplicate(records + [rec]) == kept + [rec];
    assert (kept + [rec])[..|kept|] == kept;
  }

  // ---------------------------------------------------------------------
  // A worked example: an apex `A` record, a `NETLIFY` record and a
  // duplicate of the apex, with no redirect rules

  const ApexA := DnsRecord("example.com", "A", 3600, 0, "1.2.3.4")
  const WwwNetlify := DnsRecord("www.example.com", "NETLIFY", 3600, 0, "example.netlify.app")
  const ApexDuplicate := DnsRecord("example.com", "A", 3600, 0, "9.9.9.9")

  /** The lines expected for them, field by field. */
  const ExampleHeader := "$ORIGIN " + "example.com" + "." + "\n"
  const ApexLine := "example.com" + "." + "\tIN\t" + "3600" + "\t" + "A" + "\t" + "1.2.3.4" + "\n"
  const NetlifyLine := "www.example.com" + "." + "\tIN\t" + "3600" + "\t" + "CNAME" + "\t"
    + ("example.netlify.app" + ".") + "\n"

  /** The second apex record is dropped. */
  lemma ExampleDeduplicate()
    ensures Deduplicate([ApexA, WwwNetlify, ApexDuplicate]) == [ApexA, WwwNetlify]
  {
    var rs := [ApexA, WwwNetlify, ApexDuplicate];
    assert Name(ApexA) != Name(WwwNetlify) by { NameInjective(ApexA, WwwNetlify); }
    DeduplicateStep(rs, 0);
    DeduplicateStep(rs, 1);
    DeduplicateStep(rs, 2);
    assert rs[..0] == [] && rs[..1] == [ApexA] && rs[..2] == [ApexA, WwwNetlify] && rs[..3] == rs;
    assert Names(rs[..2]) == {Name(ApexA), Name(WwwNetlify)};
  }

  lemma DecimalOf3600()
    ensures Decimal(3600) == "3600"
  {
    assert NatDigits(3) == "3";
    assert NatDigits(36) == "36";
    assert NatDigits(360) == "360";
  }

  /** The `A` record keeps its value. */
  lemma ExampleApexLine(hostOf: HostParser)
    ensures RecordLine(ApexA, [], hostOf) == ApexLine
  {
    DecimalOf3600();
    RecordLineLayout(ApexA, [], hostOf);
  }

  /** The `NETLIFY` record is written as a `CNAME` whose value is made fully
      qualified. */
  lemma ExampleNetlifyLine(hostOf: HostParser)
    ensures RecordLine(WwwNetlify, [], hostOf) == NetlifyLine
  {
    DecimalOf3600();
    RecordLineLayout(WwwNetlify, [], hostOf);
  }

  lemma ExampleOrigin()
    ensures OriginLine(DnsZone("z1", "example.com")) == ExampleHeader
  {
  }

  /** The kept records give the apex line, then the `CNAME` line. */
  lemma ExampleRecordLines(hostOf: HostParser)
    ensures RecordLines([ApexA, WwwNetlify], [], hostOf) == ApexLine + NetlifyLine
  {
    ExampleApexLine(hostOf);
    ExampleNetlifyLine(hostOf);
    RecordLinesAppend([ApexA], WwwNetlify, [], hostOf);
    RecordLinesAppend([], ApexA, [], hostOf);
    assert [] + [ApexA] == [ApexA] && [ApexA] + [WwwNetlify] == [ApexA, WwwNetlify];
  }

  /** The whole text of the example. */
  lemma ExampleZone(hostOf: HostParser)
    ensures ZoneFileText(DnsZone("z1", "example.com"), [ApexA, WwwNetlify, ApexDuplicate], [], hostOf)
            == ExampleHeader + ApexLine + NetlifyLine
  {
    ExampleDeduplicate();
    ExampleRecordLines(hostOf);
    ExampleOrigin();
  }

  // ---------------------------------------------------------------------
  // One line per surviving record

  predicate NewlineFree(s: string)
  {
    '\n' !in s
  }

  /** The record fields the generator copies into the text hold no newline. */
  predicate NewlineFreeRecords(records: seq<DnsRecord>)
  {
    forall i :: 0 <= i < |records| ==>
      NewlineFree(records[i].hostname) && NewlineFree(records[i].recordType) && NewlineFree(records[i].value)
  }

  /** The destinations of the rules hold no newline. */
  predicate NewlineFreeRedirects(redirects: seq<Redirect>)
  {
    forall i :: 0 <= i < |redirects| ==> NewlineFree(redirects[i].toRule)
  }

  /** The number of newline characters in `s`. */
  function NewlineCount(s: string): nat
    decreases |s|
  {
    if s == [] then 0 else (if s[0] == '\n' then 1 else 0) + NewlineCount(s[1..])
  }

  lemma {:induction false} NewlineCountAppend(a: string, b: string)
    ensures NewlineCount(a + b) == NewlineCount(a) + NewlineCount(b)
    decreases |a|
  {
    if a == [] {
      assert a + b == b;
    } else {
      assert (a + b)[1..] == a[1..] + b;
      NewlineCountAppend(a[1..], b);
    }
  }

  lemma {:induction false} NewlineFreeCount(s: string)
    requires NewlineFree(s)
    ensures NewlineCount(s) == 0
    decreases |s|
  {
    if s != [] {
      assert forall k :: 0 <= k < |s[1..]| ==> s[1..][k] == s[k + 1];
      NewlineFreeCount(s[1..]);
    }
  }

  /** A newline-free body followed by a newline is one line. */
  lemma OneLine(body: string)
    requires NewlineFree(body)
    ensures NewlineCount(body + "\n") == 1
  {
    NewlineFreeCount(body);
    NewlineCountAppend(body, "\n");
  }

  /** Tab-joining newline-free fields gives a newline-free line body. */
  lemma FieldsNewlineFree(name: string, ttl: string, recordType: string, priority: string, value: string)
    requires NewlineFree(name) && NewlineFree(ttl) && NewlineFree(recordType)
    requires NewlineFree(priority) && NewlineFree(value)
    ensures NewlineFree(name + "\tIN\t" + ttl + "\t" + recordType + priority + "\t" + value)
  {
  }

  /** The written value of a record holds no newline. */
  lemma RecordValueNewlineFree(rec: DnsRecord, redirects: seq<Redirect>, hostOf: HostParser)
    requires NewlineFree(rec.value)
    requires NewlineFreeRedirects(redirects)
    ensures NewlineFree(RecordValue(rec, redirects, hostOf))
  {
    match FirstMatch(rec.hostname, redirects, hostOf)
    case Some(i) =>
      assert NewlineFree(redirects[i].toRule);
      ExtractDestinationAddsNothing(redirects[i].toRule, '\n');
    case None =>
  }

  /** A record line holds one newline, its last character. */
  lemma RecordLineIsOneLine(rec: DnsRecord, redirects: seq<Redirect>, hostOf: HostParser)
    requires NewlineFree(rec.hostname) && NewlineFree(rec.recordType) && NewlineFree(rec.value)
    requires NewlineFreeRedirects(redirects)
    ensures var line := RecordLine(rec, redirects, hostOf);
      line[|line| - 1] == '\n' && NewlineCount(line) == 1
  {
    DecimalIsOneField(rec.ttl);
    DecimalIsOneField(rec.priority);
    RecordValueNewlineFree(rec, redirects, hostOf);
    var value := RecordValue(rec, redirects, hostOf);
    var priority := PrioritySegment(rec.priority);
    FieldsNewlineFree(Name(rec), Decimal(rec.ttl), TypeWithReplacement(rec.recordType), priority, value);
    var body := Name(rec) + "\tIN\t" + Decimal(rec.ttl) + "\t" + TypeWithReplacement(rec.recordType)
      + priority + "\t" + value;
    assert RecordLine(rec, redirects, hostOf) == body + "\n";
    OneLine(body);
  }

  lemma {:induction false} RecordLinesNewlineCount(records: seq<DnsRecord>, redirects: seq<Redirect>, hostOf: HostParser)
    requires NewlineFreeRecords(records)
    requires NewlineFreeRedirects(redirects)
    ensures NewlineCount(RecordLines(records, redirects, hostOf)) == |records|
    decreases |records|
  {
    if records != [] {
      var n := |records| - 1;
      var init := records[..n];
      assert NewlineFreeRecords(init) by {
        forall i | 0 <= i < n ensures init[i] == records[i] { }
      }
      RecordLinesNewlineCount(init, redirects, hostOf);
      RecordLineIsOneLine(records[n], redirects, hostOf);
      NewlineCountAppend(RecordLines(init, redirects, hostOf), RecordLine(records[n], redirects, hostOf));
    }
  }

  /** Deduplication only drops records, so it keeps fields newline-free. */
  lemma DeduplicateNewlineFree(records: seq<DnsRecord>)
    requires NewlineFreeRecords(records)
    ensures NewlineFreeRecords(Deduplicate(records))
  {
    var kept := Deduplicate(records);
    DeduplicateDrawsFromInput(records);
    forall j | 0 <= j < |kept|
      ensures NewlineFree(kept[j].hostname) && NewlineFree(kept[j].recordType) && NewlineFree(kept[j].value)
    {
      var i :| 0 <= i < |records| && records[i] == kept[j];
    }
  }

  /** With newline-free fields, the text has one newline for the `$ORIGIN`
      line and one per distinct hostname: exactly one line per surviving
      record. */
  lemma ZoneFileLineCount(zone: DnsZone, records: seq<DnsRecord>, redirects: seq<Redirect>, hostOf: HostParser)
    requires NewlineFree(zone.name)
    requires NewlineFreeRecords(records)
    requires NewlineFreeRedirects(redirects)
    ensures NewlineCount(ZoneFileText(zone, records, redirects, hostOf)) == 1 + |Hostnames(records)|
  {
    var kept := Deduplicate(records);
    DeduplicateNewlineFree(records);
    RecordLinesNewlineCount(kept, redirects, hostOf);
    DeduplicateCount(records);
    OriginLineIsOneLine(zone);
    NewlineCountAppend(OriginLine(zone), RecordLines(kept, redirects, hostOf));
  }

  /** The `$ORIGIN` line holds one newline. */
  lemma OriginLineIsOneLine(zone: DnsZone)
    requires NewlineFree(zone.name)
    ensures NewlineCount(OriginLine(zone)) == 1
  {
    var head := "$ORIGIN " + zone.name + ".";
    assert NewlineFree(head);
    OneLine(head);
  }
}
