/**
 * The trade-record extractor (`parse_trade_email`, `_extract_items`,
 * `_extract_items_from_table`). The HTML document is given as the node data the HTML
 * parser and the source's regular expressions have already selected, in document order;
 * the model is the selection logic over that data.
 */
module Extraction {

  import opened Wrappers
  import opened Seqs
  import opened Text
  import opened Catalogue

  /** An `<a>` whose href matched the profile-URL expression: its href and its text. */
  datatype Link = Link(href: string, text: string)

  /**
   * A `<table>`: its full text (not yet lowered), the srcs of its item images (those matching
   * `steamstatic.com/economy/image/`) and the texts of its name divs (those styled
   * `color: #D2D2D2`), both in document order.
   */
  datatype Table = Table(text: string, itemImages: seq<string>, nameTexts: seq<string>)

  /**
   * A parsed notification: profile links, avatar image srcs, level-span texts, the full
   * text, the results of the friendship-date expressions for each language, the tables,
   * and the hrefs of the links that matched `tradeoffer/\d+/confirm`.
   */
  datatype Document = Document(
    profileLinks: seq<Link>,
    avatarSrcs: seq<string>,
    levelTexts: seq<string>,
    text: string,
    germanDateCapture: Option<string>,
    englishDateCapture: Option<string>,
    tables: seq<Table>,
    confirmHrefs: seq<string>)

  datatype Item = Item(name: string, image: string, index: nat)

  /** The source's `trade_data` dictionary. */
  datatype TradeRecord = TradeRecord(
    traderName: string,
    traderProfile: Option<string>,
    traderAvatar: Option<string>,
    traderLevel: string,
    friendshipDate: string,
    friendshipStatus: string,
    yourItems: seq<Item>,
    theirItems: seq<Item>,
    confirmUrl: Option<string>,
    cancelUrl: Option<string>,
    tradeId: Option<string>,
    isTrustedTrader: bool,
    isDonation: bool,
    language: Language)

  const Unknown := "Unknown"
  const NotFriendsStatus := "Not friends"
  const UnknownItem := "Unknown Item"
  const CancelMarker := "cancel=1"
  const TradeOfferPrefix := "tradeoffer/"

  /** The dictionary `parse_trade_email` starts from: every field at its default. */
  function InitialRecord(lang: Language): (r: TradeRecord)
    ensures r.traderProfile == None && r.confirmUrl == None && r.cancelUrl == None && r.tradeId == None
    ensures r.yourItems == [] && r.theirItems == [] && !r.isTrustedTrader && !r.isDonation
  {
    TradeRecord(Unknown, None, None, Unknown, Unknown, Unknown, [], [], None, None, None, false, false, lang)
  }

  // ---------------------------------------------------------------- trader

  /** The `elif` test: the href names a community profile by vanity id or by number. */
  predicate IsProfileHref(href: string)
  {
    Contains(href, "steamcommunity.com/id/") || Contains(href, "steamcommunity.com/profiles/")
  }

  /** A link at which the trader loop stops: a trusted href, or else a profile-shaped one. */
  function StopsTraderScan(allowed: seq<string>): Link -> bool
  {
    (l: Link) => l.href != "" && (ContainsAny(l.href, allowed) || IsProfileHref(l.href))
  }

  /** The trader fields: name, profile and trust hint, taken from the link the loop stops at. */
  function TraderOf(links: seq<Link>, allowed: seq<string>): (r: (string, Option<string>, bool))
    ensures r.1.None? ==> r.0 == Unknown && !r.2
    ensures r.1.Some? ==> r.1.value != ""
    ensures r.2 <==> r.1.Some? && ContainsAny(r.1.value, allowed)
  {
    match FirstWhere(links, StopsTraderScan(allowed))
    case None => (Unknown, None, false)
    case Some(k) => (Strip(links[k].text), Some(links[k].href), ContainsAny(links[k].href, allowed))
  }

  /** The trader loop in `parse_trade_email`: both branches `break`, so it stops at one link. */
  method FindTrader(links: seq<Link>, allowed: seq<string>)
    returns (name: string, profile: Option<string>, trusted: bool)
    ensures FirstWhere(links, StopsTraderScan(allowed)).None? ==>
      name == Unknown && profile == None && !trusted
    ensures FirstWhere(links, StopsTraderScan(allowed)).Some? ==>
      var k := FirstWhere(links, StopsTraderScan(allowed)).value;
      name == Strip(links[k].text) && profile == Some(links[k].href) &&
      trusted == ContainsAny(links[k].href, allowed)
    ensures (name, profile, trusted) == TraderOf(links, allowed)
  {
    name, profile, trusted := Unknown, None, false;
    var k := 0;
    while k < |links|
      invariant 0 <= k <= |links|
      invariant forall j :: 0 <= j < k ==> !StopsTraderScan(allowed)(links[j])
    {
      var href := links[k].href;
      assert StopsTraderScan(allowed)(links[k]) == (href != "" && (ContainsAny(href, allowed) || IsProfileHref(href)));
      if href != "" && ContainsAny(href, allowed) {
        assert FirstWhere(links, StopsTraderScan(allowed)) == Some(k);
        name, profile, trusted := Strip(links[k].text), Some(href), true;
        break;
      } else if href != "" && IsProfileHref(href) {
        assert FirstWhere(links, StopsTraderScan(allowed)) == Some(k);
        name, profile := Strip(links[k].text), Some(href);
        break;
      }
      k := k + 1;
    }
  }

  // ---------------------------------------------------------------- items of one table

  /** The name texts that survive the filter: stripped, and longer than three characters. */
  function ItemNames(texts: seq<string>): (names: seq<string>)
    ensures |names| <= |texts|
    ensures forall i :: 0 <= i < |names| ==> |names[i]| > 3
  {
    if texts == [] then []
    else
      var t := Strip(texts[|texts| - 1]);
      ItemNames(texts[..|texts| - 1]) + (if |t| > 3 then [t] else [])
  }

  /** The filter keeps the order of the name texts: it maps a concatenation piecewise. */
  lemma {:induction false} ItemNamesAppend(a: seq<string>, b: seq<string>)
    ensures ItemNames(a + b) == ItemNames(a) + ItemNames(b)
  {
    if b == [] {
      assert a + b == a;
    } else {
      var n := |b| - 1;
      assert (a + b)[..|a + b| - 1] == a + b[..n];
      assert (a + b)[|a + b| - 1] == b[n];
      ItemNamesAppend(a, b[..n]);
    }
  }

  /** Every surviving name is the stripped form of some name text. */
  lemma {:induction false} ItemNamesSound(texts: seq<string>, i: nat)
    requires i < |ItemNames(texts)|
    ensures exists j :: 0 <= j < |texts| && Strip(texts[j]) == ItemNames(texts)[i]
  {
    var n := |texts| - 1;
    var init := texts[..n];
    var t := Strip(texts[n]);
    assert ItemNames(texts) == ItemNames(init) + (if |t| > 3 then [t] else []);
    if i < |ItemNames(init)| {
      ItemNamesSound(init, i);
      var j :| 0 <= j < |init| && Strip(init[j]) == ItemNames(init)[i];
      assert texts[j] == init[j];
    } else {
      assert Strip(texts[n]) == ItemNames(texts)[i];
    }
  }

  /** Every name text longer than three characters once stripped survives the filter. */
  lemma {:induction false} ItemNamesComplete(texts: seq<string>, j: nat)
    requires j < |texts| && |Strip(texts[j])| > 3
    ensures exists i :: 0 <= i < |ItemNames(texts)| && ItemNames(texts)[i] == Strip(texts[j])
  {
    var n := |texts| - 1;
    var init := texts[..n];
    var t := Strip(texts[n]);
    var names := ItemNames(init);
    var all := ItemNames(texts);
    assert all == names + (if |t| > 3 then [t] else []);
    if j < n {
      assert init[j] == texts[j];
      ItemNamesComplete(init, j);
      var i :| 0 <= i < |names| && names[i] == Strip(init[j]);
      assert all[i] == names[i];
    } else {
      assert all[|names|] == t;
    }
  }

  /** The items of a table: one per item image, paired by position with the surviving names. */
  function TableItems(t: Table): seq<Item>
  {
    var names := ItemNames(t.nameTexts);
    seq(|t.itemImages|, i requires 0 <= i < |t.itemImages| =>
      Item(if i < |names| then names[i] else UnknownItem, t.itemImages[i], i))
  }

  /** `_extract_items_from_table`: filter the names, then pair them with the images. */
  method ExtractItemsFromTable(t: Table) returns (items: seq<Item>)
    ensures |items| == |t.itemImages|
    ensures forall i :: 0 <= i < |items| ==>
      items[i].index == i && items[i].image == t.itemImages[i] &&
      items[i].name == (if i < |ItemNames(t.nameTexts)| then ItemNames(t.nameTexts)[i] else UnknownItem)
    ensures items == TableItems(t)
  {
    var names: seq<string> := [];
    var k := 0;
    while k < |t.nameTexts|
      invariant 0 <= k <= |t.nameTexts|
      invariant names == ItemNames(t.nameTexts[..k])
    {
      assert t.nameTexts[..k + 1][..k] == t.nameTexts[..k];
      var text := Strip(t.nameTexts[k]);
      if text != "" && |text| > 3 {
        names := names + [text];
      }
      k := k + 1;
    }
    assert t.nameTexts[..k] == t.nameTexts;
    items := [];
    var i := 0;
    while i < |t.itemImages|
      invariant 0 <= i <= |t.itemImages|
      invariant |items| == i
      invariant forall j :: 0 <= j < i ==>
        items[j] == Item(if j < |names| then names[j] else UnknownItem, t.itemImages[j], j)
    {
      var name := if i < |names| then names[i] else UnknownItem;
      items := items + [Item(name, t.itemImages[i], i)];
      i := i + 1;
    }
  }

  // ---------------------------------------------------------------- item sections

  /** The "your items" test of `_extract_items` on a lowered table text. */
  predicate HasYourItemsLabel(s: string, lang: Language)
  {
    if lang == German then ContainsAny(s, ["ihre gegenstände", "ihre items"])
    else Contains(s, "your items")
  }

  /** The "their items" test of `_extract_items` on a lowered table text. */
  predicate HasTheirItemsLabel(s: string, lang: Language)
  {
    if lang == German then ContainsAny(s, ["gegenstände von", "items von"])
    else ContainsAny(s, ["items from", "their items"])
  }

  /** The table's lowered text carries the "your items" label. */
  predicate IsYourTable(t: Table, lang: Language)
  {
    HasYourItemsLabel(Lower(t.text), lang)
  }

  /** The table's lowered text carries the "their items" label. */
  predicate IsTheirTable(t: Table, lang: Language)
  {
    HasTheirItemsLabel(Lower(t.text), lang)
  }

  function YourItemsLabel(lang: Language): Table -> bool
  {
    (t: Table) => IsYourTable(t, lang)
  }

  /** A table reaches the "their items" branch only when the "your items" test failed. */
  function TheirItemsSection(lang: Language): Table -> bool
  {
    (t: Table) => !IsYourTable(t, lang) && IsTheirTable(t, lang)
  }

  /** The items of the last table of a kind; none when no table is of that kind. */
  function SectionItems(tables: seq<Table>, section: Table -> bool): seq<Item>
  {
    match LastWhere(tables, section)
    case None => []
    case Some(k) => TableItems(tables[k])
  }

  /** Looking at one more table: it replaces the section's items iff it is of the section's kind. */
  lemma SectionItemsStep(tables: seq<Table>, k: nat, section: Table -> bool)
    requires k < |tables|
    ensures SectionItems(tables[..k + 1], section) ==
      if section(tables[k]) then TableItems(tables[k]) else SectionItems(tables[..k], section)
  {
    assert tables[..k + 1][..k] == tables[..k];
  }

  /** The donation flag: a "no items selected" phrase of the language in the full text. */
  predicate IsDonation(doc: Document, lang: Language)
  {
    ContainsAny(Lower(doc.text), Phrases(lang, NoItemsSelected))
  }

  /** `_extract_items`: every table is examined, a later match overwrites an earlier one. */
  method ExtractItems(doc: Document, lang: Language)
    returns (yours: seq<Item>, theirs: seq<Item>, donation: bool)
    ensures yours == SectionItems(doc.tables, YourItemsLabel(lang))
    ensures theirs == SectionItems(doc.tables, TheirItemsSection(lang))
    ensures donation == IsDonation(doc, lang)
  {
    yours, theirs := [], [];
    var tables := doc.tables;
    var k := 0;
    while k < |tables|
      invariant 0 <= k <= |tables|
      invariant yours == SectionItems(tables[..k], YourItemsLabel(lang))
      invariant theirs == SectionItems(tables[..k], TheirItemsSection(lang))
    {
      SectionItemsStep(tables, k, YourItemsLabel(lang));
      SectionItemsStep(tables, k, TheirItemsSection(lang));
      var tableText := Lower(tables[k].text);
      var isYourItems := HasYourItemsLabel(tableText, lang);
      assert YourItemsLabel(lang)(tables[k]) == isYourItems;
      if isYourItems {
        yours := ExtractItemsFromTable(tables[k]);
        k := k + 1;
        continue;
      }
      var isTheirItems := HasTheirItemsLabel(tableText, lang);
      assert TheirItemsSection(lang)(tables[k]) == isTheirItems;
      if isTheirItems {
        theirs := ExtractItemsFromTable(tables[k]);
      }
      k := k + 1;
    }
    assert tables[..k] == tables;
    var textContent := Lower(doc.text);
    donation := ContainsAny(textContent, Phrases(lang, NoItemsSelected));
  }

  // ---------------------------------------------------------------- confirmation links

  predicate IsDigit(c: char)
  {
    '0' <= c <= '9'
  }

  /** The length of the run of digits that starts at position `j` of `s`. */
  function DigitRunLength(s: string, j: nat): (n: nat)
    requires j <= |s|
    ensures j + n <= |s|
    ensures forall m :: j <= m < j + n ==> IsDigit(s[m])
    ensures j + n < |s| ==> !IsDigit(s[j + n])
    decreases |s| - j
  {
    if j < |s| && IsDigit(s[j]) then 1 + DigitRunLength(s, j + 1) else 0
  }

  /**
   * `tradeoffer/(\d+)/` matches at position `i`. The greedy `\d+` takes the whole digit run;
   * giving back digits cannot help, since the character after a shorter run is a digit.
   */
  predicate TradeIdAt(h: string, i: nat)
  {
    MatchesAt(h, TradeOfferPrefix, i) &&
    var j := i + |TradeOfferPrefix|;
    var n := DigitRunLength(h, j);
    n > 0 && j + n < |h| && h[j + n] == '/'
  }

  /** The captured group of a match at position `i`. */
  function TradeIdDigits(h: string, i: nat): string
    requires TradeIdAt(h, i)
  {
    var j := i + |TradeOfferPrefix|;
    h[j..j + DigitRunLength(h, j)]
  }

  /** `re.search(r'tradeoffer/(\d+)/', h)` from position `i` on: the leftmost match's group. */
  function TradeIdFrom(h: string, i: nat): (r: Option<string>)
    ensures r.None? <==> forall m :: i <= m < |h| ==> !TradeIdAt(h, m)
    ensures r.Some? ==> exists m :: i <= m < |h| && TradeIdAt(h, m) && r.value == TradeIdDigits(h, m) &&
                                 (forall m' :: i <= m' < m ==> !TradeIdAt(h, m'))
    decreases |h| - i
  {
    if i >= |h| then None
    else if TradeIdAt(h, i) then Some(TradeIdDigits(h, i))
    else TradeIdFrom(h, i + 1)
  }

  /** The trade id captured from one confirmation href, if the expression matches it. */
  function TradeIdOf(h: string): (r: Option<string>)
    ensures r.Some? ==> r.value != [] && forall k :: 0 <= k < |r.value| ==> IsDigit(r.value[k])
    ensures r.Some? ==> exists m :: 0 <= m < |h| && TradeIdAt(h, m) && r.value == TradeIdDigits(h, m) &&
                                 (forall m' :: 0 <= m' < m ==> !TradeIdAt(h, m'))
    ensures r.None? <==> forall m :: 0 <= m < |h| ==> !TradeIdAt(h, m)
  {
    TradeIdFrom(h, 0)
  }

  /** `tradeoffer/\d+/confirm` matches at position `i` with a digit run of length `n`. */
  predicate ConfirmShapedAt(h: string, i: nat, n: nat)
  {
    var j := i + |TradeOfferPrefix|;
    n > 0 && MatchesAt(h, TradeOfferPrefix, i) && j + n <= |h| &&
    (forall m :: j <= m < j + n ==> IsDigit(h[m])) &&
    MatchesAt(h, "/confirm", j + n)
  }

  /** The href matches `tradeoffer/\d+/confirm`, as every selected confirmation link does. */
  ghost predicate IsConfirmShaped(h: string)
  {
    exists i: nat, n: nat :: ConfirmShapedAt(h, i, n)
  }

  /** Every href of the confirmation-link shape yields a trade id. */
  lemma ConfirmShapedHasTradeId(h: string)
    requires IsConfirmShaped(h)
    ensures TradeIdOf(h).Some?
  {
    var i: nat, n: nat :| ConfirmShapedAt(h, i, n);
    var j := i + |TradeOfferPrefix|;
    assert h[j + n..j + n + 8] == "/confirm";
    assert h[j + n] == '/';
    DigitRunCovers(h, j, n);
    assert TradeIdAt(h, i);
  }

  /** A run of `n` digits followed by a non-digit is exactly the digit run at `j`. */
  lemma {:induction false} DigitRunCovers(s: string, j: nat, n: nat)
    requires j + n < |s|
    requires forall m :: j <= m < j + n ==> IsDigit(s[m])
    requires !IsDigit(s[j + n])
    ensures DigitRunLength(s, j) == n
    decreases n
  {
    if n > 0 {
      DigitRunCovers(s, j + 1, n - 1);
    }
  }

  predicate IsCancelHref(h: string)
  {
    Contains(h, CancelMarker)
  }

  predicate IsConfirmHref(h: string)
  {
    !Contains(h, CancelMarker)
  }

  /** A confirmation href from which a trade id is captured. */
  predicate HasTradeId(h: string)
  {
    !Contains(h, CancelMarker) && TradeIdOf(h).Some?
  }

  /** The trade id: captured from the last confirmation href that yields one. */
  function TradeIdOfLinks(hrefs: seq<string>): Option<string>
  {
    match LastMatch(hrefs, HasTradeId)
    case None => None
    case Some(h) => TradeIdOf(h)
  }

  /** The confirm-link loop of `parse_trade_email`: later links overwrite earlier ones. */
  method FindActionLinks(hrefs: seq<string>)
    returns (confirm: Option<string>, cancel: Option<string>, tradeId: Option<string>)
    ensures cancel == LastMatch(hrefs, IsCancelHref)
    ensures confirm == LastMatch(hrefs, IsConfirmHref)
    ensures tradeId == TradeIdOfLinks(hrefs)
  {
    confirm, cancel, tradeId := None, None, None;
    var k := 0;
    while k < |hrefs|
      invariant 0 <= k <= |hrefs|
      invariant cancel == LastMatch(hrefs[..k], IsCancelHref)
      invariant confirm == LastMatch(hrefs[..k], IsConfirmHref)
      invariant tradeId == TradeIdOfLinks(hrefs[..k])
    {
      LastMatchStep(hrefs, k, IsCancelHref);
      LastMatchStep(hrefs, k, IsConfirmHref);
      LastMatchStep(hrefs, k, HasTradeId);
      var href := hrefs[k];
      if Contains(href, CancelMarker) {
        cancel := Some(href);
      } else {
        confirm := Some(href);
        var m := TradeIdOf(href);
        if m.Some? {
          tradeId := m;
        }
      }
      k := k + 1;
    }
    assert hrefs[..k] == hrefs;
  }

  // ---------------------------------------------------------------- the whole record

  /**
   * The record `parse_trade_email` builds from a document: each field the document supplies,
   * and the field's default from `InitialRecord` otherwise.
   */
  function TradeRecordOf(doc: Document, lang: Language, allowed: seq<string>): (r: TradeRecord)
    ensures r.language == lang
    ensures r.traderProfile.None? ==> r.traderName == Unknown && !r.isTrustedTrader
    ensures r.isTrustedTrader ==> r.traderProfile.Some? && r.traderProfile.value != ""
    ensures r.friendshipStatus == NotFriendsStatus || r.friendshipStatus == Unknown
    ensures r.confirmUrl.Some? ==> !Contains(r.confirmUrl.value, CancelMarker)
    ensures r.cancelUrl.Some? ==> Contains(r.cancelUrl.value, CancelMarker)
  {
    var (name, profile, trusted) := TraderOf(doc.profileLinks, allowed);
    var capture := if lang == German then doc.germanDateCapture else doc.englishDateCapture;
    TradeRecord(
      traderName := name,
      traderProfile := profile,
      traderAvatar := if doc.avatarSrcs == [] then None else Some(doc.avatarSrcs[0]),
      traderLevel := if doc.levelTexts == [] then Unknown else Strip(doc.levelTexts[0]),
      friendshipDate := if capture.Some? then capture.value else Unknown,
      friendshipStatus :=
        if ContainsAny(Lower(doc.text), Phrases(lang, NotFriends)) then NotFriendsStatus else Unknown,
      yourItems := SectionItems(doc.tables, YourItemsLabel(lang)),
      theirItems := SectionItems(doc.tables, TheirItemsSection(lang)),
      confirmUrl := LastMatch(doc.confirmHrefs, IsConfirmHref),
      cancelUrl := LastMatch(doc.confirmHrefs, IsCancelHref),
      tradeId := TradeIdOfLinks(doc.confirmHrefs),
      isTrustedTrader := trusted,
      isDonation := IsDonation(doc, lang),
      language := lang)
  }

  /** A document without any node leaves every field at its `InitialRecord` default. */
  lemma EmptyDocumentGivesInitialRecord(lang: Language, allowed: seq<string>)
    ensures TradeRecordOf(Document([], [], [], "", None, None, [], []), lang, allowed) == InitialRecord(lang)
  {
  }

  /**
   * `parse_trade_email`. `parsed` is the parser's result: `None` when parsing raised, which
   * the source turns into a `None` record.
   */
  method ParseTradeEmail(parsed: Option<Document>, lang: Language, allowed: seq<string>)
    returns (r: Option<TradeRecord>)
    ensures r.None? <==> parsed.None?
    ensures parsed.Some? ==> r == Some(TradeRecordOf(parsed.value, lang, allowed))
  {
    if parsed.None? {
      return None;
    }
    var doc := parsed.value;
    var tradeData := InitialRecord(lang);
    var name, profile, trusted := FindTrader(doc.profileLinks, allowed);
    var avatar, level := tradeData.traderAvatar, tradeData.traderLevel;
    if doc.avatarSrcs != [] {
      avatar := Some(doc.avatarSrcs[0]);
    }
    if doc.levelTexts != [] {
      level := Strip(doc.levelTexts[0]);
    }
    var status, date := tradeData.friendshipStatus, tradeData.friendshipDate;
    if ContainsAny(Lower(doc.text), Phrases(lang, NotFriends)) {
      status := NotFriendsStatus;
    }
    var capture := if lang == German then doc.germanDateCapture else doc.englishDateCapture;
    if capture.Some? {
      date := capture.value;
    }
    var yours, theirs, donation := ExtractItems(doc, lang);
    var confirm, cancel, tradeId := FindActionLinks(doc.confirmHrefs);
    tradeData := tradeData.(
      traderName := name, traderProfile := profile, isTrustedTrader := trusted,
      traderAvatar := avatar, traderLevel := level,
      friendshipStatus := status, friendshipDate := date,
      yourItems := yours, theirItems := theirs, isDonation := donation,
      confirmUrl := confirm, cancelUrl := cancel, tradeId := tradeId);
    r := Some(tradeData);
  }

  // ---------------------------------------------------------------- properties of the record

  /**
   * "Their items" come from the last table that has the "their items" label and lacks the
   * "your items" one; with no such table they stay empty.
   */
  lemma TheirItemsSource(tables: seq<Table>, lang: Language)
    ensures match LastWhere(tables, TheirItemsSection(lang))
      case None =>
        SectionItems(tables, TheirItemsSection(lang)) == [] &&
        forall j :: 0 <= j < |tables| ==> IsYourTable(tables[j], lang) || !IsTheirTable(tables[j], lang)
      case Some(k) =>
        !IsYourTable(tables[k], lang) && IsTheirTable(tables[k], lang) &&
        SectionItems(tables, TheirItemsSection(lang)) == TableItems(tables[k]) &&
        forall j :: k < j < |tables| ==> IsYourTable(tables[j], lang) || !IsTheirTable(tables[j], lang)
  {
    var w := LastWhere(tables, TheirItemsSection(lang));
    if w.Some? {
      assert TheirItemsSection(lang)(tables[w.value]);
      forall j | w.value < j < |tables|
        ensures IsYourTable(tables[j], lang) || !IsTheirTable(tables[j], lang)
      {
        assert !TheirItemsSection(lang)(tables[j]);
      }
    } else {
      forall j | 0 <= j < |tables|
        ensures IsYourTable(tables[j], lang) || !IsTheirTable(tables[j], lang)
      {
        assert !TheirItemsSection(lang)(tables[j]);
      }
    }
  }

  /** A table with the "your items" label never supplies "their items". */
  lemma YourTablesNeverSupplyTheirItems(tables: seq<Table>, lang: Language)
    requires forall j :: 0 <= j < |tables| ==> IsYourTable(tables[j], lang)
    ensures SectionItems(tables, TheirItemsSection(lang)) == []
  {
    TheirItemsSource(tables, lang);
  }

  /** The donation flag depends on the document's text alone, not on its tables or links. */
  lemma DonationDependsOnTextOnly(doc: Document, other: Document, lang: Language, allowed: seq<string>)
    requires other.text == doc.text
    ensures TradeRecordOf(other, lang, allowed).isDonation == TradeRecordOf(doc, lang, allowed).isDonation
  {
  }

  /**
   * The donation flag is read from the full text alone: a notification saying that no items
   * were selected can still carry a "their items" table with an item, and then the record is
   * a donation with items received.
   */
  lemma DonationBesideTheirItems()
    ensures var doc := Document([], [], [], "no items selected", None, None,
                                [Table("items from", ["item.png"], [])], []);
      var rec := TradeRecordOf(doc, English, []);
      rec.isDonation && rec.theirItems != []
  {
    var t := Table("items from", ["item.png"], []);
    var doc := Document([], [], [], "no items selected", None, None, [t], []);
    LowerOfLowercase("no items selected");
    LowerOfLowercase("items from");
    assert MatchesAt("no items selected", "no items selected", 0);
    assert Phrases(English, NoItemsSelected)[1] == "no items selected";
    assert IsDonation(doc, English);
    assert MatchesAt("items from", "items from", 0);
    assert ["items from", "their items"][0] == "items from";
    assert Contains("items from", "items from");
    assert IsTheirTable(t, English);
    assert !MatchesAt("items from", "your items", 0) by {
      assert "items from"[0..10][0] != "your items"[0];
    }
    assert !IsYourTable(t, English);
    assert TheirItemsSection(English)(t);
    assert LastWhere([t], TheirItemsSection(English)) == Some(0);
    assert |TableItems(t)| == 1;
  }

  /** Without confirmation links the confirm URL, the cancel URL and the trade id stay unset. */
  lemma NoConfirmLinksLeaveDefaults(doc: Document, lang: Language, allowed: seq<string>)
    requires doc.confirmHrefs == []
    ensures var rec := TradeRecordOf(doc, lang, allowed);
      rec.confirmUrl == None && rec.cancelUrl == None && rec.tradeId == None
  {
  }

  /**
   * When every href has the confirmation-link shape, the trade id is the one captured from
   * the confirm URL, and there is one exactly when there is a confirm URL.
   */
  lemma TradeIdOfConfirmUrl(hrefs: seq<string>)
    requires forall j :: 0 <= j < |hrefs| ==> IsConfirmShaped(hrefs[j])
    ensures match LastMatch(hrefs, IsConfirmHref)
      case None => TradeIdOfLinks(hrefs) == None
      case Some(h) => TradeIdOfLinks(hrefs) == TradeIdOf(h) && TradeIdOf(h).Some?
  {
    forall j | 0 <= j < |hrefs|
      ensures HasTradeId(hrefs[j]) == IsConfirmHref(hrefs[j])
    {
      ConfirmShapedHasTradeId(hrefs[j]);
    }
    LastWhereCongruent(hrefs, HasTradeId, IsConfirmHref);
    var w := LastWhere(hrefs, IsConfirmHref);
    if w.Some? {
      ConfirmShapedHasTradeId(hrefs[w.value]);
    }
  }
}
