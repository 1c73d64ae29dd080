/**
 * The trust gate (`is_trader_allowed`): the sole authority for auto-accepting. It fails
 * closed on a missing or empty profile and otherwise tests whether some allowlist entry is
 * a substring of the profile URL.
 */
module TrustGate {

  import opened Wrappers
  import opened Seqs
  import opened Text
  import opened Catalogue
  import opened Extraction

  /** The `for allowed_trader in ...` scan from position `k` on, returning at the first hit. */
  function ScanAllowlist(profile: string, allowed: seq<string>, k: nat): (r: bool)
    requires k <= |allowed|
    ensures r <==> exists e :: k <= e < |allowed| && Contains(profile, allowed[e])
    decreases |allowed| - k
  {
    if k == |allowed| then false
    else if Contains(profile, allowed[k]) then true
    else ScanAllowlist(profile, allowed, k + 1)
  }

  /** `is_trader_allowed`. */
  function IsTraderAllowed(rec: TradeRecord, allowed: seq<string>): (r: bool)
    ensures r <==> rec.traderProfile.Some? && rec.traderProfile.value != "" &&
                   exists e :: 0 <= e < |allowed| && Contains(rec.traderProfile.value, allowed[e])
  {
    match rec.traderProfile
    case None => false
    case Some(profile) => profile != "" && ScanAllowlist(profile, allowed, 0)
  }

  /** Fail closed: without a profile no allowlist admits the trader. */
  lemma NoProfileNeverAllowed(rec: TradeRecord, allowed: seq<string>)
    requires rec.traderProfile == None || rec.traderProfile == Some("")
    ensures !IsTraderAllowed(rec, allowed)
  {
  }

  /** Adding allowlist entries never withdraws trust. */
  lemma AllowlistMonotone(rec: TradeRecord, allowed: seq<string>, more: seq<string>)
    requires forall e :: 0 <= e < |allowed| ==> allowed[e] in more
    ensures IsTraderAllowed(rec, allowed) ==> IsTraderAllowed(rec, more)
  {
    if IsTraderAllowed(rec, allowed) {
      var p := rec.traderProfile.value;
      var e :| 0 <= e < |allowed| && Contains(p, allowed[e]);
      var e' :| 0 <= e' < |more| && more[e'] == allowed[e];
      assert Contains(p, more[e']);
    }
  }

  /** The substring test's open risk: an empty entry admits every non-empty profile. */
  lemma EmptyEntryAdmitsEveryone(rec: TradeRecord, allowed: seq<string>)
    requires "" in allowed
    requires rec.traderProfile.Some? && rec.traderProfile.value != ""
    ensures IsTraderAllowed(rec, allowed)
  {
    var e :| 0 <= e < |allowed| && allowed[e] == "";
    assert MatchesAt(rec.traderProfile.value, allowed[e], 0);
  }

  /**
   * The extractor's trust hint agrees with the gate on every document: the hint is set from
   * the same link the record's profile comes from, with the same substring test.
   */
  lemma TrustHintAgreesWithGate(doc: Document, lang: Language, allowed: seq<string>)
    ensures var rec := TradeRecordOf(doc, lang, allowed);
      rec.isTrustedTrader == IsTraderAllowed(rec, allowed)
  {
    var k := FirstWhere(doc.profileLinks, StopsTraderScan(allowed));
    if k.Some? {
      assert StopsTraderScan(allowed)(doc.profileLinks[k.value]);
    }
  }

  /**
   * When every profile link has the profile shape (as the selecting expression guarantees),
   * only the first link matters: it gives the name and the profile, and the trust hint is
   * the gate's verdict on it.
   */
  lemma FirstProfileLinkDecides(doc: Document, lang: Language, allowed: seq<string>)
    requires forall j :: 0 <= j < |doc.profileLinks| ==> IsProfileHref(doc.profileLinks[j].href)
    ensures var rec := TradeRecordOf(doc, lang, allowed);
      if doc.profileLinks == [] then
        rec.traderName == Unknown && rec.traderProfile == None && !rec.isTrustedTrader
      else
        rec.traderName == Strip(doc.profileLinks[0].text) &&
        rec.traderProfile == Some(doc.profileLinks[0].href) &&
        rec.isTrustedTrader == ContainsAny(doc.profileLinks[0].href, allowed)
  {
    if doc.profileLinks != [] {
      var h := doc.profileLinks[0].href;
      assert h != "";
      assert StopsTraderScan(allowed)(doc.profileLinks[0]);
    }
  }
}
