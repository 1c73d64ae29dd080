/**
 * The offer pipeline: the per-message part of `get_trade_offer_emails` (subject filter,
 * language, extraction) and `process_trade_offers` (trust gate, confirmation, counters and
 * the mark-read side effect on the mailbox).
 */
module Processor {

  import opened Wrappers
  import opened Text
  import opened Catalogue
  import opened LanguageDetection
  import opened Extraction
  import opened TrustGate
  import opened Confirmation

  /**
   * A message the mailbox fetched: its id, whether the fetch succeeded, its decoded subject,
   * its body text, and the parsed body (`None` when the HTML parser raised).
   */
  datatype Message = Message(id: string, fetched: bool, subject: string, body: string, parsed: Option<Document>)

  /** An entry of `trade_offers`. */
  datatype Offer = Offer(emailId: string, subject: string, record: TradeRecord, language: Language)

  /** The number of attempts `process_trade_offers` gives each confirmation. */
  const ConfirmRetries := 3

  // ---------------------------------------------------------------- collecting offers

  /** The subject filter of `get_trade_offer_emails`, in English and in German. */
  predicate IsTradeSubject(subject: string)
    ensures IsTradeSubject(subject) ==> Contains(Lower(subject), "trade") || Contains(Lower(subject), "handel")
  {
    var s := Lower(subject);
    (Contains(s, "trade") && (Contains(s, "confirmation") || Contains(s, "offer"))) ||
    (Contains(s, "handel") && (Contains(s, "bestätigung") || Contains(s, "angebot")))
  }

  /** The filter does not depend on letter case. */
  lemma SubjectFilterIgnoresCase(subject: string)
    ensures IsTradeSubject(Lower(subject)) == IsTradeSubject(subject)
  {
    LowerIdempotent(subject);
  }

  /** Subjects naming a trade offer or confirmation in either language pass the filter. */
  lemma TradeSubjectsPass(subject: string)
    requires Contains(Lower(subject), "trade offer") || Contains(Lower(subject), "trade confirmation") ||
             Contains(Lower(subject), "handelsangebot")
    ensures IsTradeSubject(subject)
  {
    var s := Lower(subject);
    if Contains(s, "trade offer") {
      assert "trade offer" == "trade" + " " + "offer";
      ContainsEnds(s, "trade", " ", "offer");
    } else if Contains(s, "trade confirmation") {
      assert "trade confirmation" == "trade" + " " + "confirmation";
      ContainsEnds(s, "trade", " ", "confirmation");
    } else {
      assert "handelsangebot" == "handel" + "s" + "angebot";
      ContainsEnds(s, "handel", "s", "angebot");
    }
  }

  /** What one fetched message contributes to `trade_offers`. */
  function OfferOf(m: Message, allowed: seq<string>): (r: Option<Offer>)
    ensures r.None? <==> !m.fetched || !IsTradeSubject(m.subject) || m.parsed.None?
    ensures r.Some? ==> r.value.emailId == m.id && r.value.subject == m.subject
    ensures r.Some? ==> r.value.record.language == r.value.language
  {
    if !m.fetched || !IsTradeSubject(m.subject) || m.parsed.None? then None
    else
      var lang := LanguageOf(m.subject, m.body);
      Some(Offer(m.id, m.subject, TradeRecordOf(m.parsed.value, lang, allowed), lang))
  }

  /** The offers collected from `msgs`, in mailbox order. */
  function CollectedOffers(msgs: seq<Message>, allowed: seq<string>): seq<Offer>
  {
    if msgs == [] then []
    else
      var last := msgs[|msgs| - 1];
      CollectedOffers(msgs[..|msgs| - 1], allowed) +
      (match OfferOf(last, allowed) case None => [] case Some(o) => [o])
  }

  /** Every collected offer comes from a fetched message with a trade subject, in order. */
  lemma {:induction false} CollectedOffersSound(msgs: seq<Message>, allowed: seq<string>, k: nat)
    requires k < |CollectedOffers(msgs, allowed)|
    ensures exists j :: 0 <= j < |msgs| && OfferOf(msgs[j], allowed) == Some(CollectedOffers(msgs, allowed)[k])
    ensures IsTradeSubject(CollectedOffers(msgs, allowed)[k].subject)
  {
    var n := |msgs| - 1;
    var init := msgs[..n];
    var before := CollectedOffers(init, allowed);
    if k < |before| {
      CollectedOffersSound(init, allowed, k);
      var j :| 0 <= j < |init| && OfferOf(init[j], allowed) == Some(before[k]);
      assert msgs[j] == init[j];
    } else {
      assert OfferOf(msgs[n], allowed) == Some(CollectedOffers(msgs, allowed)[k]);
    }
  }

  /** The per-message loop of `get_trade_offer_emails`, after the mailbox fetch. */
  method CollectTradeOffers(msgs: seq<Message>, allowed: seq<string>) returns (offers: seq<Offer>)
    ensures offers == CollectedOffers(msgs, allowed)
  {
    offers := [];
    for k := 0 to |msgs|
      invariant offers == CollectedOffers(msgs[..k], allowed)
    {
      assert msgs[..k + 1][..k] == msgs[..k];
      var m := msgs[k];
      if !m.fetched {
        continue;
      }
      if IsTradeSubject(m.subject) {
        var language := DetectEmailLanguage(m.subject, m.body);
        var tradeData := ParseTradeEmail(m.parsed, language, allowed);
        if tradeData.Some? {
          offers := offers + [Offer(m.id, m.subject, tradeData.value, language)];
        }
      }
    }
    assert msgs[..|msgs|] == msgs;
  }

  // ---------------------------------------------------------------- processing offers

  /** The mailbox, as far as processing sees it: the ids it has been asked to mark read. */
  class Mailbox {
    var marked: seq<string>

    constructor ()
      ensures marked == []
    {
      marked := [];
    }

    /** `mark_email_as_read`. */
    method MarkRead(id: string)
      modifies this
      ensures marked == old(marked) + [id]
    {
      marked := marked + [id];
    }
  }

  /** `trade_data.get('confirm_url')` is truthy. */
  predicate HasConfirmUrl(rec: TradeRecord)
  {
    rec.confirmUrl.Some? && rec.confirmUrl.value != ""
  }

  /** An offer for which `accept_trade` is called: an allowed trader and a confirmation URL. */
  predicate Eligible(o: Offer, allowed: seq<string>)
    ensures Eligible(o, allowed) ==> allowed != [] && o.record.traderProfile.Some? && o.record.confirmUrl.Some?
    ensures Eligible(o, allowed) ==>
      exists e :: 0 <= e < |allowed| && Contains(o.record.traderProfile.value, allowed[e])
  {
    IsTraderAllowed(o.record, allowed) && HasConfirmUrl(o.record)
  }

  /** The ids of the offers, in order. */
  function EmailIds(offers: seq<Offer>): (ids: seq<string>)
    ensures |ids| == |offers|
    ensures forall i :: 0 <= i < |offers| ==> ids[i] == offers[i].emailId
  {
    if offers == [] then [] else EmailIds(offers[..|offers| - 1]) + [offers[|offers| - 1].emailId]
  }

  /** The positions, among the first `n` offers, whose confirmation is attempted. */
  function CallsUpTo(offers: seq<Offer>, allowed: seq<string>, n: nat): seq<nat>
    requires n <= |offers|
  {
    if n == 0 then []
    else CallsUpTo(offers, allowed, n - 1) + (if Eligible(offers[n - 1], allowed) then [n - 1] else [])
  }

  /** Whether the confirmation of offer `i` succeeds, `network(i)` answering its requests. */
  predicate ConfirmedAt(offers: seq<Offer>, allowed: seq<string>, network: nat -> nat -> Outcome, i: nat)
    requires i < |offers|
  {
    Eligible(offers[i], allowed) &&
    AcceptRun(offers[i].record.confirmUrl.value, network(i), ConfirmRetries, offers[i].language).accepted
  }

  /** How many of the first `n` offers are accepted. */
  function AcceptedUpTo(offers: seq<Offer>, allowed: seq<string>, network: nat -> nat -> Outcome, n: nat): nat
    requires n <= |offers|
  {
    if n == 0 then 0
    else AcceptedUpTo(offers, allowed, network, n - 1) + (if ConfirmedAt(offers, allowed, network, n - 1) then 1 else 0)
  }

  /** A confirmation is attempted for an offer exactly when it is eligible, once, in order. */
  lemma {:induction false} CallsAreEligible(offers: seq<Offer>, allowed: seq<string>, n: nat, i: nat)
    requires n <= |offers|
    ensures i in CallsUpTo(offers, allowed, n) <==> i < n && Eligible(offers[i], allowed)
    ensures |CallsUpTo(offers, allowed, n)| <= n
    ensures forall a :: 0 <= a < |CallsUpTo(offers, allowed, n)| ==> CallsUpTo(offers, allowed, n)[a] < n
    ensures forall a, b :: 0 <= a < b < |CallsUpTo(offers, allowed, n)| ==>
      CallsUpTo(offers, allowed, n)[a] < CallsUpTo(offers, allowed, n)[b]
  {
    if n > 0 {
      CallsAreEligible(offers, allowed, n - 1, i);
    }
  }

  /** No more offers are accepted than confirmations are attempted. */
  lemma {:induction false} AcceptedWithinCalls(offers: seq<Offer>, allowed: seq<string>, network: nat -> nat -> Outcome, n: nat)
    requires n <= |offers|
    ensures AcceptedUpTo(offers, allowed, network, n) <= |CallsUpTo(offers, allowed, n)| <= n
  {
    if n > 0 {
      AcceptedWithinCalls(offers, allowed, network, n - 1);
    }
  }

  /** An offer without a confirmation URL, or from a trader the gate rejects, is never confirmed. */
  lemma NeverConfirmedWithoutGateAndUrl(offers: seq<Offer>, allowed: seq<string>, i: nat)
    requires i < |offers|
    requires offers[i].record.confirmUrl == None || !IsTraderAllowed(offers[i].record, allowed)
    ensures i !in CallsUpTo(offers, allowed, |offers|)
  {
    CallsAreEligible(offers, allowed, |offers|, i);
  }

  /**
   * The body of the loop of `process_trade_offers` for one offer: the gate, the confirmation
   * when there is a URL, and the mark-read that follows in every case.
   */
  method ProcessOffer(offer: Offer, allowed: seq<string>, mail: Mailbox, respond: nat -> Outcome)
    returns (called: bool, accepted: bool, ghost requests: nat)
    modifies mail
    ensures called == Eligible(offer, allowed)
    ensures accepted == (called && AcceptRun(offer.record.confirmUrl.value, respond, ConfirmRetries, offer.language).accepted)
    ensures requests ==
      if called then AcceptRun(offer.record.confirmUrl.value, respond, ConfirmRetries, offer.language).requests else 0
    ensures mail.marked == old(mail.marked) + [offer.emailId]
  {
    var tradeData := offer.record;
    called, accepted, requests := false, false, 0;
    if !IsTraderAllowed(tradeData, allowed) {
      mail.MarkRead(offer.emailId);
      return;
    }
    if tradeData.confirmUrl.Some? && tradeData.confirmUrl.value != "" {
      var ok, made, events := AcceptTrade(tradeData.confirmUrl.value, ConfirmRetries, offer.language, respond);
      called, accepted, requests := true, ok, made;
    }
    mail.MarkRead(offer.emailId);
  }

  /**
   * `process_trade_offers`. `network(i)(j)` is the outcome of the j-th request made for the
   * i-th offer's confirmation; `calls` records which offers' confirmations were attempted.
   */
  method ProcessTradeOffers(offers: seq<Offer>, allowed: seq<string>, mail: Mailbox, network: nat -> nat -> Outcome)
    returns (processedCount: nat, acceptedCount: nat, ghost calls: seq<nat>)
    modifies mail
    ensures processedCount == |offers|
    ensures acceptedCount == AcceptedUpTo(offers, allowed, network, |offers|)
    ensures acceptedCount <= processedCount
    ensures calls == CallsUpTo(offers, allowed, |offers|)
    ensures mail.marked == old(mail.marked) + EmailIds(offers)
  {
    processedCount, acceptedCount, calls := 0, 0, [];
    for i := 0 to |offers|
      invariant processedCount == i
      invariant acceptedCount == AcceptedUpTo(offers, allowed, network, i)
      invariant calls == CallsUpTo(offers, allowed, i)
      invariant mail.marked == old(mail.marked) + EmailIds(offers[..i])
    {
      assert offers[..i + 1][..i] == offers[..i];
      assert EmailIds(offers[..i + 1]) == EmailIds(offers[..i]) + [offers[i].emailId];
      var called, ok, _ := ProcessOffer(offers[i], allowed, mail, network(i));
      assert called == Eligible(offers[i], allowed);
      assert ok == ConfirmedAt(offers, allowed, network, i);
      if called {
        calls := calls + [i];
      }
      if ok {
        acceptedCount := acceptedCount + 1;
      }
      processedCount := processedCount + 1;
    }
    assert offers[..|offers|] == offers;
    AcceptedWithinCalls(offers, allowed, network, |offers|);
  }
}
