/** The redirect matcher: whether a record's hostname is the host of a
    redirect rule's `from` URL, which rule applies first, and the value a
    matching rule's `to` URL gives. */
module Redirects {
  import opened Wrappers
  import opened Text

  /** A redirect rule of the site configuration. The HTTP status and the
      force flag are never read by the generator and are not kept. */
  datatype Redirect = Redirect(fromRule: string, toRule: string)

  /** `url.Parse(u).Host`: the host part of a URL, `None` when the URL does
      not parse. The URL grammar itself is not modelled; every function of
      this type is a possible parser. */
  type HostParser = string -> Option<string>

  /** Placeholder removed from a destination URL. */
  const Splat := ":splat"

  /** The rule matches when its `from` URL parses and its host is exactly
      the record's hostname. */
  function MatchRedirectRule(domain: string, fromRule: string, hostOf: HostParser): (matched: bool)
    ensures hostOf(fromRule).None? ==> !matched
    ensures matched <==> hostOf(fromRule) == Some(domain)
  {
    match hostOf(fromRule)
    case None => false
    case Some(host) => domain == host
  }

  /** Matching is exact equality, with no case folding, suffix or wildcard
      matching: a rule matches at most one hostname. */
  lemma MatchRedirectRuleExact(d1: string, d2: string, fromRule: string, hostOf: HostParser)
    requires MatchRedirectRule(d1, fromRule, hostOf) && MatchRedirectRule(d2, fromRule, hostOf)
    ensures d1 == d2
  {
  }

  /** The destination a rule's `to` URL gives: each `:splat` found in one
      left-to-right pass removed, then every trailing `/`. */
  function ExtractDestination(toRule: string): (r: string)
    ensures r == [] || r[|r| - 1] != '/'
    ensures r <= RemoveAll(toRule, Splat)
    ensures forall i :: |r| <= i < |RemoveAll(toRule, Splat)| ==> RemoveAll(toRule, Splat)[i] == '/'
  {
    TrimRight(RemoveAll(toRule, Splat), '/')
  }

  /** A destination with no `:splat` and no trailing `/` is kept as it is. */
  lemma ExtractDestinationStable(toRule: string)
    requires Absent(toRule, Splat)
    requires toRule == [] || toRule[|toRule| - 1] != '/'
    ensures ExtractDestination(toRule) == toRule
  {
    RemoveAllUnchangedIff(toRule, Splat);
  }

  /** A catch-all destination loses its placeholder and the slash before
      it. */
  lemma ExtractDestinationExample()
    ensures ExtractDestination("/a/" + Splat) == "/a"
  {
    var s := "/a/" + Splat;
    assert Index(s, Splat) == Some(3) by {
      assert s[3..][..6] == Splat;
      assert Index(s[3..], Splat) == Some(0);
      assert s[2..][..6][0] != Splat[0] && s[2..][1..] == s[3..];
      assert Index(s[2..], Splat) == Some(1);
      assert s[1..][..6][0] != Splat[0] && s[1..][1..] == s[2..];
      assert Index(s[1..], Splat) == Some(2);
      assert s[..6][0] != Splat[0];
    }
    assert s[..3] == "/a/" && s[9..] == "";
    assert RemoveAll(s, Splat) == "/a/";
    assert TrimRight("/a/", '/') == "/a";
  }

  /** Cleaning a destination adds no character to it. */
  lemma ExtractDestinationAddsNothing(toRule: string, c: char)
    requires c !in toRule
    ensures c !in ExtractDestination(toRule)
  {
    var removed := RemoveAll(toRule, Splat);
    RemoveAllAddsNothing(toRule, Splat, c);
    var r := ExtractDestination(toRule);
    assert forall k :: 0 <= k < |r| ==> r[k] == removed[k];
  }

  /** Once a destination holds no `:splat`, cleaning it again changes
      nothing: in particular the trailing-slash trim is not repeated. */
  lemma ExtractDestinationIdempotent(toRule: string)
    requires Absent(ExtractDestination(toRule), Splat)
    ensures ExtractDestination(ExtractDestination(toRule)) == ExtractDestination(toRule)
  {
    ExtractDestinationStable(ExtractDestination(toRule));
  }

  /** The index of the first rule, in list order, that matches `domain`. */
  function FirstMatch(domain: string, redirects: seq<Redirect>, hostOf: HostParser): (r: Option<nat>)
    ensures r.Some? ==> r.value < |redirects|
    decreases |redirects|
  {
    if redirects == [] then None
    else if MatchRedirectRule(domain, redirects[0].fromRule, hostOf) then Some(0)
    else
      match FirstMatch(domain, redirects[1..], hostOf)
      case None => None
      case Some(k) => Some(k + 1)
  }

  /** `FirstMatch` finds a matching rule that no earlier rule matches, and
      finds none only when no rule matches. */
  lemma {:induction false} FirstMatchCorrect(domain: string, redirects: seq<Redirect>, hostOf: HostParser)
    ensures FirstMatch(domain, redirects, hostOf).Some? ==>
              var k := FirstMatch(domain, redirects, hostOf).value;
              k < |redirects| && MatchRedirectRule(domain, redirects[k].fromRule, hostOf) &&
              forall j :: 0 <= j < k ==> !MatchRedirectRule(domain, redirects[j].fromRule, hostOf)
    ensures FirstMatch(domain, redirects, hostOf).None? <==>
              forall j :: 0 <= j < |redirects| ==> !MatchRedirectRule(domain, redirects[j].fromRule, hostOf)
    decreases |redirects|
  {
    if redirects != [] && !MatchRedirectRule(domain, redirects[0].fromRule, hostOf) {
      FirstMatchCorrect(domain, redirects[1..], hostOf);
      assert forall j :: 1 <= j < |redirects| ==> redirects[j] == redirects[1..][j - 1];
    }
  }

  /** The first matching rule is the one every earlier rule fails to match. */
  lemma {:induction false} FirstMatchAt(domain: string, redirects: seq<Redirect>, hostOf: HostParser, k: nat)
    requires k < |redirects| && MatchRedirectRule(domain, redirects[k].fromRule, hostOf)
    requires forall j :: 0 <= j < k ==> !MatchRedirectRule(domain, redirects[j].fromRule, hostOf)
    ensures FirstMatch(domain, redirects, hostOf) == Some(k)
    decreases k
  {
    if k > 0 {
      assert !MatchRedirectRule(domain, redirects[0].fromRule, hostOf);
      assert forall j :: 0 <= j < k - 1 ==> redirects[1..][j] == redirects[j + 1];
      FirstMatchAt(domain, redirects[1..], hostOf, k - 1);
    }
  }

  /** The value once the redirect rules are applied: the destination of the
      first rule that matches `domain`, or `value` itself when none does. */
  function Redirected(domain: string, redirects: seq<Redirect>, hostOf: HostParser, value: string): string
  {
    match FirstMatch(domain, redirects, hostOf)
    case Some(i) => ExtractDestination(redirects[i].toRule)
    case None => value
  }

  /** The first rule whose `from` host equals `domain` decides the value,
      whatever the value was; with no such rule the value is untouched. */
  lemma RedirectedSpec(domain: string, redirects: seq<Redirect>, hostOf: HostParser, value: string)
    ensures (forall i :: 0 <= i < |redirects| ==> !MatchRedirectRule(domain, redirects[i].fromRule, hostOf))
              ==> Redirected(domain, redirects, hostOf, value) == value
    ensures forall i :: 0 <= i < |redirects| && MatchRedirectRule(domain, redirects[i].fromRule, hostOf)
              && (forall j :: 0 <= j < i ==> !MatchRedirectRule(domain, redirects[j].fromRule, hostOf))
              ==> Redirected(domain, redirects, hostOf, value) == ExtractDestination(redirects[i].toRule)
  {
    FirstMatchCorrect(domain, redirects, hostOf);
    forall i | 0 <= i < |redirects| && MatchRedirectRule(domain, redirects[i].fromRule, hostOf)
               && (forall j :: 0 <= j < i ==> !MatchRedirectRule(domain, redirects[j].fromRule, hostOf))
      ensures FirstMatch(domain, redirects, hostOf) == Some(i)
    {
      FirstMatchAt(domain, redirects, hostOf, i);
    }
  }

  /** The generator's inner loop: scans the rules in order and stops at the
      first one that matches, replacing `value` by its destination. */
  method ApplyRedirects(domain: string, redirects: seq<Redirect>, hostOf: HostParser, value: string)
    returns (result: string)
    ensures result == Redirected(domain, redirects, hostOf, value)
  {
    result := value;
    ghost var redirected := false;
    for k := 0 to |redirects|
      invariant forall j :: 0 <= j < k ==> !MatchRedirectRule(domain, redirects[j].fromRule, hostOf)
      invariant result == value && !redirected
    {
      if MatchRedirectRule(domain, redirects[k].fromRule, hostOf) {
        result := ExtractDestination(redirects[k].toRule);
        FirstMatchAt(domain, redirects, hostOf, k);
        redirected := true;
        break;
      }
    }
    if !redirected {
      FirstMatchCorrect(domain, redirects, hostOf);
    }
  }
}
