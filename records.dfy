/** The records the provider's API returns, and the record normalizer of the
    zone-file generator: the aliasing of provider pseudo-types to `CNAME`
    and the deduplication of records by name. */
module Records {

  /** A DNS zone; its name is the origin of the zone file. */
  datatype DnsZone = DnsZone(id: string, name: string)

  /** A DNS record as the provider returns it. Only the fields the generator
      reads are kept. A priority of zero means "not set". */
  datatype DnsRecord = DnsRecord(
    hostname: string,
    recordType: string,
    ttl: int,
    priority: int,
    value: string)

  /** The provider's pseudo-types, both exported as `CNAME`. */
  const Netlify := "NETLIFY"
  const NetlifyV6 := "NETLIFYv6"
  const Cname := "CNAME"

  /** Types whose value is itself a host name, and so gets a trailing `.`. */
  predicate IsHostnameValued(recordType: string)
  {
    recordType == Cname || recordType == NetlifyV6 || recordType == Netlify
  }

  /** The type token written to the zone file. */
  function TypeWithReplacement(recordType: string): (r: string)
    ensures recordType == Netlify || recordType == NetlifyV6 ==> r == Cname
    ensures recordType != Netlify && recordType != NetlifyV6 ==> r == recordType
    ensures r != Netlify && r != NetlifyV6
  {
    if recordType == Netlify || recordType == NetlifyV6 then Cname else recordType
  }

  /** Aliasing is a fixed mapping: applying it again changes nothing. */
  lemma TypeWithReplacementIdempotent(recordType: string)
    ensures TypeWithReplacement(TypeWithReplacement(recordType)) == TypeWithReplacement(recordType)
  {
  }

  /** A value is suffixed exactly when the type written out is `CNAME`, so
      deciding on the original type or on the aliased one agrees. */
  lemma HostnameValuedIffWrittenAsCname(recordType: string)
    ensures IsHostnameValued(recordType) <==> TypeWithReplacement(recordType) == Cname
  {
  }

  // ---------------------------------------------------------------------
  // Deduplication

  /** The key a record is deduplicated on: its hostname with a `.` appended. */
  function Name(rec: DnsRecord): string
  {
    rec.hostname + "."
  }

  /** Appending the `.` loses nothing: equal keys mean equal hostnames. */
  lemma NameInjective(a: DnsRecord, b: DnsRecord)
    ensures Name(a) == Name(b) <==> a.hostname == b.hostname
  {
    if Name(a) == Name(b) {
      assert a.hostname == Name(a)[..|a.hostname|];
      assert b.hostname == Name(b)[..|b.hostname|];
    }
  }

  /** The keys of a list of records. */
  function Names(records: seq<DnsRecord>): (names: set<string>)
    decreases |records|
  {
    if records == [] then {}
    else Names(records[..|records| - 1]) + {Name(records[|records| - 1])}
  }

  /** The hostnames of a list of records. */
  function Hostnames(records: seq<DnsRecord>): set<string>
    decreases |records|
  {
    if records == [] then {}
    else Hostnames(records[..|records| - 1]) + {records[|records| - 1].hostname}
  }

  lemma {:induction false} NamesMembership(records: seq<DnsRecord>, rec: DnsRecord)
    ensures Name(rec) in Names(records) <==> rec.hostname in Hostnames(records)
    ensures rec.hostname in Hostnames(records) <==>
              exists i :: 0 <= i < |records| && records[i].hostname == rec.hostname
    decreases |records|
  {
    if records != [] {
      var init, last := records[..|records| - 1], records[|records| - 1];
      NamesMembership(init, rec);
      NameInjective(rec, last);
      if rec.hostname in Hostnames(init) {
        var i :| 0 <= i < |init| && init[i].hostname == rec.hostname;
        assert records[i] == init[i];
      }
      if exists i :: 0 <= i < |records| && records[i].hostname == rec.hostname {
        var i :| 0 <= i < |records| && records[i].hostname == rec.hostname;
        if i < |init| {
          assert init[i] == records[i];
        }
      }
    }
  }

  /** `records` with every record dropped whose key an earlier record
      already had: the records the generator's loop writes out. */
  function Deduplicate(records: seq<DnsRecord>): (kept: seq<DnsRecord>)
    ensures |kept| <= |records|
    decreases |records|
  {
    if records == [] then []
    else
      var init, last := records[..|records| - 1], records[|records| - 1];
      if Name(last) in Names(init) then Deduplicate(init) else Deduplicate(init) + [last]
  }

  /** One step of the generator's loop over `records`: record `i` adds its
      key to the seen names, and it is kept exactly when its key is new. */
  lemma DeduplicateStep(records: seq<DnsRecord>, i: int)
    requires 0 <= i < |records|
    ensures Names(records[..i + 1]) == Names(records[..i]) + {Name(records[i])}
    ensures Name(records[i]) in Names(records[..i]) ==> Deduplicate(records[..i + 1]) == Deduplicate(records[..i])
    ensures Name(records[i]) !in Names(records[..i]) ==>
              Deduplicate(records[..i + 1]) == Deduplicate(records[..i]) + [records[i]]
  {
    assert records[..i + 1][..i] == records[..i];
  }

  /** Every kept record is a record of the input. */
  lemma {:induction false} DeduplicateDrawsFromInput(records: seq<DnsRecord>)
    ensures forall j :: 0 <= j < |Deduplicate(records)| ==> Deduplicate(records)[j] in records
    decreases |records|
  {
    if records != [] {
      var init := records[..|records| - 1];
      DeduplicateDrawsFromInput(init);
      var rest := Deduplicate(init);
      forall j | 0 <= j < |rest| ensures rest[j] in records {
        var i :| 0 <= i < |init| && init[i] == rest[j];
        assert records[i] == init[i];
      }
    }
  }

  /** Record `i` is the first one with its hostname. */
  predicate IsFirstOccurrence(records: seq<DnsRecord>, i: int)
  {
    0 <= i < |records| && forall m :: 0 <= m < i ==> records[m].hostname != records[i].hostname
  }

  /** The indexes of the first occurrences, in increasing order. */
  ghost function FirstOccurrences(records: seq<DnsRecord>): (idx: seq<int>)
    ensures forall k :: 0 <= k < |idx| ==> IsFirstOccurrence(records, idx[k])
    ensures forall k, l :: 0 <= k < l < |idx| ==> idx[k] < idx[l]
    decreases |records|
  {
    if records == [] then []
    else
      var n := |records| - 1;
      var init := records[..n];
      var rest := FirstOccurrences(init);
      assert forall i :: 0 <= i < n ==> (IsFirstOccurrence(init, i) <==> IsFirstOccurrence(records, i));
      assert forall k :: 0 <= k < |rest| ==> rest[k] < n;
      if IsFirstOccurrence(records, n) then rest + [n] else rest
  }

  /** No first occurrence is missing from `FirstOccurrences`. */
  lemma {:induction false} FirstOccurrencesComplete(records: seq<DnsRecord>, i: int)
    requires IsFirstOccurrence(records, i)
    ensures i in FirstOccurrences(records)
    decreases |records|
  {
    var n := |records| - 1;
    var init := records[..n];
    if i < n {
      assert IsFirstOccurrence(init, i);
      FirstOccurrencesComplete(init, i);
    }
  }

  /** The inductive step of `DeduplicateKeepsFirstOccurrences`: extending
      two lists that agree index-wise by one matching element each. */
  lemma PickedAppend(records: seq<DnsRecord>, kept: seq<DnsRecord>, first: seq<int>, n: int)
    requires 0 <= n < |records| && |kept| == |first|
    requires forall k :: 0 <= k < |first| ==> 0 <= first[k] < |records|
    requires forall j :: 0 <= j < |kept| ==> kept[j] == records[first[j]]
    ensures forall j :: 0 <= j < |kept| + 1 ==> (kept + [records[n]])[j] == records[(first + [n])[j]]
  {
  }

  /** Deduplication keeps exactly the first record of each hostname, in input
      order: the output is the subsequence of the input at the indexes of
      first occurrences. So every later record with a repeated hostname
      produces nothing. */
  lemma {:induction false} DeduplicateKeepsFirstOccurrences(records: seq<DnsRecord>)
    ensures |Deduplicate(records)| == |FirstOccurrences(records)|
    ensures forall j :: 0 <= j < |Deduplicate(records)| ==>
              Deduplicate(records)[j] == records[FirstOccurrences(records)[j]]
    decreases |records|
  {
    if records != [] {
      var n := |records| - 1;
      var init, last := records[..n], records[n];
      DeduplicateKeepsFirstOccurrences(init);
      var kept, first := Deduplicate(init), FirstOccurrences(init);
      assert forall k :: 0 <= k < |first| ==> 0 <= first[k] < n;
      assert forall j :: 0 <= j < |kept| ==> kept[j] == records[first[j]] by {
        forall j | 0 <= j < |kept| ensures kept[j] == records[first[j]] {
          assert init[first[j]] == records[first[j]];
        }
      }
      assert IsFirstOccurrence(records, n) <==> Name(last) !in Names(init) by {
        NamesMembership(init, last);
        assert forall i :: 0 <= i < n ==> init[i] == records[i];
      }
      if IsFirstOccurrence(records, n) {
        PickedAppend(records, kept, first, n);
      }
    }
  }

  /** The records of `records` at the indexes `idx`, in the order of `idx`. */
  ghost function Select(records: seq<DnsRecord>, idx: seq<int>): (picked: seq<DnsRecord>)
    requires forall k :: 0 <= k < |idx| ==> 0 <= idx[k] < |records|
    ensures |picked| == |idx|
    ensures forall k :: 0 <= k < |idx| ==> picked[k] == records[idx[k]]
  {
    seq(|idx|, k requires 0 <= k < |idx| => records[idx[k]])
  }

  /** The same fact as one equation: deduplication selects the first
      occurrences. */
  lemma DeduplicateIsSelection(records: seq<DnsRecord>)
    ensures Deduplicate(records) == Select(records, FirstOccurrences(records))
  {
    DeduplicateKeepsFirstOccurrences(records);
  }

  /** No two kept records share a hostname. */
  lemma {:induction false} DeduplicateDistinct(records: seq<DnsRecord>)
    ensures forall j, k :: 0 <= j < k < |Deduplicate(records)| ==>
              Deduplicate(records)[j].hostname != Deduplicate(records)[k].hostname
    decreases |records|
  {
    if records != [] {
      var n := |records| - 1;
      var init, last := records[..n], records[n];
      DeduplicateDistinct(init);
      DeduplicateDrawsFromInput(init);
      var rest := Deduplicate(init);
      if Name(last) !in Names(init) {
        NamesMembership(init, last);
        forall j | 0 <= j < |rest| ensures rest[j].hostname != last.hostname {
          var i :| 0 <= i < |init| && init[i] == rest[j];
        }
      }
    }
  }

  /** There is one kept record per distinct hostname of the input. */
  lemma {:induction false} DeduplicateCount(records: seq<DnsRecord>)
    ensures |Deduplicate(records)| == |Hostnames(records)|
    decreases |records|
  {
    if records != [] {
      var n := |records| - 1;
      var init, last := records[..n], records[n];
      DeduplicateCount(init);
      NamesMembership(init, last);
      assert Hostnames(records) == Hostnames(init) + {last.hostname};
      if last.hostname in Hostnames(init) {
        assert Hostnames(records) == Hostnames(init);
      } else {
        assert |Hostnames(records)| == |Hostnames(init)| + 1;
      }
    }
  }
}
