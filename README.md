# Steam trade auto-accepter — a verified model of its decision logic

`SteamTradeAutoAccepter` polls a mailbox for Steam trade-offer notifications and confirms the
trades proposed by an allowlisted counterparty. It does this in five steps:

1. It filters messages by subject.
2. It guesses German or English by counting catalogue phrases.
3. It extracts a trade record from the notification's HTML: counterparty, items, and the
   confirmation and cancel links.
4. It admits the counterparty only when an allowlist entry is a substring of the profile URL.
5. It visits the confirmation URL up to three times, then marks the message read.

This project models that logic in Dafny and proves what each step promises. The modules are:

- `Wrappers` (`Option`) and `Seqs`: first and last matching positions.
- `Text`: the string functions Python supplies. These are substring containment, `strip`,
  `lower`, `split` and `join`.
- `Catalogue`: the `language_patterns` table, with its exact phrases.
- `LanguageDetection`: `detect_email_language`, a nested counting loop proved against a
  counting function.
- `Extraction`:
  - `parse_trade_email`, `_extract_items` and `_extract_items_from_table`, written as loops
    over an already parsed document.
  - Each loop is proved equal to a record-building function, and the promised properties are
    proved about that function.
- `TrustGate`: `is_trader_allowed`.
- `Confirmation`: `accept_trade`.
  - The attempt loop works against an oracle that answers the j-th request.
  - Its waits are recorded as events rather than slept.
- `Processor`:
  - the per-message part of `get_trade_offer_emails`;
  - `process_trade_offers`, with the mailbox as a class whose trace of marked ids grows by
    one per offer.
- `Config`: the `ALLOWED_TRADERS` parsing of `get_env_config` and the start-up checks of
  `main`.

Where the evident intent and the code disagree, the model follows the code:

- **Counterparty selection** (`main.py:223-239`).
  - The `if`/`elif` reads as if an allowlisted profile link anywhere in the message should
    win, with the first profile-shaped link as the fallback when none is allowlisted.
  - The code stops at the first link that is allowlisted *or* profile-shaped, because both
    branches `break`. In practice that is simply the first profile link.
  - `Extraction.FindTrader` models the code. `TrustGate.FirstProfileLinkDecides` states the
    consequence.
- **Empty profile** (`main.py:379`). A gate that fails closed on an absent profile is the
  evident intent. The code's truthiness test also rejects an empty one, and the model does
  the same.
- **Donation flag** (`main.py:336-343`).
  - The comment says a donation means no items in exchange.
  - The flag is set from a "no items selected" phrase in the full text alone, whatever the
    item tables hold.
  - `Extraction.DonationBesideTheirItems` exhibits a record that is a donation and still
    lists items received.
- **Unparsable notifications** (`main.py:165-168`, `main.py:297-299`).
  - `parse_trade_email` returns `None` when parsing raises, and such a message never enters
    `trade_offers`.
  - So `process_trade_offers` neither counts it nor marks it read. Whether the server already
    marked it seen when it was fetched is outside the model.
  - `Processor.OfferOf` models this: its result is `None` exactly when the message was not
    fetched, is not a trade subject, or did not parse.

## Model

| member | source | states |
|---|---|---|
| Catalogue.Patterns | main.py:55-84 | the catalogue of each language has twelve categories in dictionary order, each holding exactly the source's phrases |
| LanguageDetection.CountCatalogue | main.py:94-105 | the nested loops count, with duplicates, every catalogue phrase occurring in the text |
| LanguageDetection.DetectEmailLanguage | main.py:89-110 | German exactly when the German phrase count in `lower(subject + " " + body)` is strictly greater than the English one, otherwise English |
| LanguageDetection.MatchCountAppend | main.py:94-105 | counting over a concatenation of phrase lists is the sum of the counts |
| LanguageDetection.CatalogueCountFlatten | main.py:94-105 | counting category by category equals counting over the flattened catalogue |
| LanguageDetection.MatchCountIsCardinality | main.py:94-105 | the count is the number of phrase positions whose phrase occurs in the text |
| LanguageDetection.DecisionByMatchingPhrases | main.py:89-110 | German iff more German catalogue positions than English ones match the lowered text |
| LanguageDetection.NoMatchesCountZero | main.py:94-105 | a text containing no phrase of a catalogue counts zero for it |
| LanguageDetection.NoCuesMeansEnglish | main.py:107-110 | with no phrase of either language present, the tie defaults to English |
| LanguageDetection.LanguageOf | main.py:107-110 | German only when some German catalogue phrase occurs in the lowered subject and body |
| Extraction.FindTrader | main.py:223-239 | name, profile and trust hint come from the first link that is non-empty and allowlisted or profile-shaped; without one they keep the defaults `'Unknown'`, None and False |
| Extraction.TraderOf | main.py:223-239 | without a profile link the name stays "Unknown" and trust stays false; a chosen profile is non-empty; trust holds iff a profile was chosen and some allowlist entry is a substring of it |
| Extraction.ItemNames | main.py:357-361 | the surviving names are no more than the name texts and each is longer than three characters |
| Extraction.ItemNamesSound | main.py:357-361 | every surviving name is the stripped text of some name div |
| Extraction.ItemNamesComplete | main.py:357-361 | every name div whose stripped text is longer than three characters survives |
| Extraction.ItemNamesAppend | main.py:357-361 | the filter keeps document order: the names of two runs of divs are the names of the first followed by those of the second |
| Extraction.ExtractItemsFromTable | main.py:348-375 | one item per item image, in order: item i has index i, image src_i, and the i-th surviving name or `'Unknown Item'` |
| Extraction.SectionItemsStep | main.py:308-334 | looking at one more table replaces a section's items exactly when that table is of the section's kind |
| Extraction.ExtractItems | main.py:301-343 | "your items" are the items of the last table with the your-items label; "their items" those of the last table with the their-items label and without the your-items one; the donation flag is a no-items phrase in the full text |
| Extraction.TheirItemsSource | main.py:308-334 | "their items" come from a table lacking the your-items label, the last such table with the their-items label, and are empty when there is none |
| Extraction.YourTablesNeverSupplyTheirItems | main.py:312-333 | when every table carries the your-items label, "their items" stay empty |
| Extraction.DonationDependsOnTextOnly | main.py:336-343 | two documents with the same text get the same donation flag, whatever their tables and links |
| Extraction.DonationBesideTheirItems | main.py:308-343 | a notification saying "no items selected" that also has a "their items" table yields a record that is a donation with items received |
| Extraction.DigitRunLength | main.py:291 | the digit run starting at a position: all digits, and followed by a non-digit or the end of the string |
| Extraction.TradeIdFrom | main.py:291-293 | the leftmost match of `tradeoffer/(\d+)/` from a position gives its digit group, and there is no match exactly when the result is None |
| Extraction.TradeIdOf | main.py:291-293 | a captured trade id is a non-empty run of digits from the leftmost match; None exactly when nothing matches |
| Extraction.ConfirmShapedHasTradeId | main.py:282-293 | every href of the shape `tradeoffer/\d+/confirm` yields a trade id |
| Extraction.DigitRunCovers | main.py:291 | a run of n digits followed by a non-digit is exactly the digit run at that position |
| Extraction.FindActionLinks | main.py:281-293 | the cancel URL is the last href containing `cancel=1`, the confirm URL the last href without it, and the trade id is the one captured from the last confirm href that yields one |
| Extraction.NoConfirmLinksLeaveDefaults | main.py:214-216 | without confirmation links, the confirm URL, cancel URL and trade id stay None |
| Extraction.TradeIdOfConfirmUrl | main.py:282-293 | when every href has the confirmation-link shape, there is a trade id exactly when there is a confirm URL, and it is captured from that URL |
| Extraction.InitialRecord | main.py:204-219 | the dictionary starts with no profile, no links, no trade id, no items, and neither trusted nor a donation |
| Extraction.TradeRecordOf | main.py:204-293 | the record keeps the language; without a profile the name stays "Unknown" and the trader is untrusted; trust implies a non-empty profile; the friendship status is "Not friends" or "Unknown"; the confirm URL never carries the cancel marker and the cancel URL always does |
| Extraction.EmptyDocumentGivesInitialRecord | main.py:204-219 | a document with no nodes and no text yields exactly the initial dictionary, so the record's defaults are those of `InitialRecord` |
| Extraction.ParseTradeEmail | main.py:199-299 | a parser failure gives None; otherwise the record is the one built field by field from the document |
| TrustGate.ScanAllowlist | main.py:386-390 | the scan from position k returns true iff some later allowlist entry is a substring of the profile |
| TrustGate.IsTraderAllowed | main.py:377-392 | true iff the profile is set, non-empty and contains some allowlist entry as a substring |
| TrustGate.NoProfileNeverAllowed | main.py:379-381 | a missing or empty profile is rejected under every allowlist |
| TrustGate.AllowlistMonotone | main.py:386-390 | adding allowlist entries never turns an admitted trader into a rejected one |
| TrustGate.EmptyEntryAdmitsEveryone | main.py:386-390 | an empty allowlist entry admits every non-empty profile |
| TrustGate.TrustHintAgreesWithGate | main.py:223-239 | the extractor's trust hint equals the gate's verdict on the same record |
| TrustGate.FirstProfileLinkDecides | main.py:223-239 | when all selected links are profile-shaped, the first one gives name, profile and trust hint; with no links those keep their defaults |
| Confirmation.FirstAcceptingFrom | main.py:396-458 | the first attempt in a range whose reply accepts, with none accepting before it; None exactly when none in the range accepts |
| Confirmation.Accepts | main.py:409-427 | an outcome ends the attempts with success only when it is a response with status 200 |
| Confirmation.AcceptRun | main.py:394-461 | at most the budget of requests is made; success means the last request's reply was accepting; failure means the whole budget was spent and no reply was accepting |
| Confirmation.AcceptRunStopsAt | main.py:409-427 | a run whose attempt a is the first to accept makes a + 1 requests and returns true |
| Confirmation.AcceptRunExhausted | main.py:419-461 | a run whose every attempt fails makes the whole budget of requests and returns false |
| Confirmation.AcceptTrade | main.py:394-461 | true iff some attempt below `max_retries` gets an accepting reply; the requests made and the waits match the run specification |
| Confirmation.AttemptsAppend | main.py:396-413 | the requests of two event sequences put together are the requests of each, in order |
| Confirmation.Range | main.py:396 | `range(n)`: the n attempt numbers in order |
| Confirmation.AttemptMakesOneRequest | main.py:396-413 | each attempt makes exactly one request |
| Confirmation.TraceRequestsInOrder | main.py:396-413 | the first n attempts make requests 0 to n - 1, each once, in order |
| Confirmation.RunShape | main.py:394-461 | at most `max_retries` requests, none when it is zero or less; true exactly when the last reply accepted; false only when the whole budget was spent |
| Confirmation.FirstRequestImmediate | main.py:401-407 | the first event of any run is the first request, made without a wait |
| Confirmation.FirstAttemptAccepted | main.py:409-418 | an accepting first reply ends the run after one request with no wait |
| Confirmation.ReplyClassification | main.py:409-433 | a success phrase wins even beside an error phrase; a 200 with neither counts as accepted; only an error phrase without a success phrase fails; any other status fails |
| Confirmation.ThreeServerErrors | main.py:428-433 | three 500 replies give three requests separated by short waits, then false |
| Confirmation.ThreeConnectionFailures | main.py:435-444 | three connection failures add a long wait after every attempt but the last, then false |
| Processor.SubjectFilterIgnoresCase | main.py:156-160 | the trade-subject filter gives the same answer on a subject and its lowered form |
| Processor.TradeSubjectsPass | main.py:156-160 | a subject containing "trade offer", "trade confirmation" or "handelsangebot", in any letter case, passes the filter |
| Processor.IsTradeSubject | main.py:156-160 | a subject passing the filter names "trade" or "handel" in lower case |
| Processor.CollectedOffersSound | main.py:137-176 | every collected offer comes from a fetched message whose subject passes the filter |
| Processor.OfferOf | main.py:162-175 | a message yields no offer exactly when it was not fetched, its subject is not a trade subject, or its body did not parse; an offer keeps the message's id and subject, and its record carries the offer's language |
| Processor.CollectTradeOffers | main.py:137-176 | the message loop skips failed fetches, keeps trade subjects whose body parses, with the detected language and the parsed record, in mailbox order |
| Processor.Mailbox.constructor | main.py:463-471 | a fresh mailbox has marked nothing read |
| Processor.Mailbox.MarkRead | main.py:463-471 | marking a message read appends its id to the trace of marked ids |
| Processor.EmailIds | main.py:478-530 | the ids of the offers, one per offer, in order |
| Processor.CallsAreEligible | main.py:484-518 | a confirmation is attempted for an offer exactly when the gate admits it and it has a confirm URL; the attempted positions are strictly increasing and below the number of offers, so each offer is attempted at most once, in offer order |
| Processor.Eligible | main.py:484-518 | an offer is confirmed only with a non-empty allowlist, a profile and a confirmation URL, and some allowlist entry a substring of that profile |
| Processor.AcceptedWithinCalls | main.py:514-522 | no more offers are accepted than confirmations are attempted, and no more are attempted than there are offers |
| Processor.NeverConfirmedWithoutGateAndUrl | main.py:484-530 | an offer without a confirm URL, or from a trader the gate rejects, is never confirmed |
| Processor.ProcessOffer | main.py:480-530 | one offer: confirmation attempted iff eligible, accepted iff attempted and the confirmation run succeeds, no request is made unless it is eligible, and its id marked read in every case |
| Processor.ProcessTradeOffers | main.py:473-532 | processed equals the number of offers; accepted counts the successful confirmations and is at most processed; every offer is marked read once, in order; confirmations are attempted exactly for eligible offers |
| Text.ContainsInner | main.py:157-160 | a string containing `a + b + c` contains `b` |
| Text.ContainsEnds | main.py:157-160 | a string containing `a + b + c` contains `a` and contains `c` |
| Text.LeadingSpaces | main.py:229 | the count of leading whitespace stops before a non-space or at the end |
| Text.LeadingSpacesAreSpace | main.py:229 | the counted leading characters are whitespace |
| Text.TrailingSpaces | main.py:229 | the count of trailing whitespace stops after a non-space or at the start |
| Text.TrailingSpacesAreSpace | main.py:229 | the counted trailing characters are whitespace |
| Text.Strip | main.py:229 | `strip()`: the result neither starts nor ends with whitespace |
| Text.StripRemovesOnlySpace | main.py:229 | `strip()` keeps a contiguous middle part and removes only whitespace around it |
| Text.StripIdempotent | main.py:590 | stripping twice is stripping once |
| Text.StripKeepsOut | main.py:590 | stripping never introduces a character |
| Text.Lower | main.py:91 | `lower()` maps each character and keeps the length |
| Text.LowerOfLowercase | main.py:91 | lowering a text that is already lower case leaves it unchanged |
| Text.Split | main.py:590 | `split(',')` gives at least one piece and no piece contains the separator |
| Text.JoinSplit | main.py:590 | joining the pieces of a split with the separator gives back the string |
| Text.SplitPrefix | main.py:590 | a separator-free prefix becomes the start of the first piece |
| Text.SplitJoin | main.py:590 | splitting a join of separator-free parts gives back the parts |
| Config.Entries | main.py:590 | the kept entries are no more than the pieces, and each is non-empty and stripped |
| Config.EntriesSound | main.py:590 | every kept entry is the stripped form of some piece |
| Config.EntriesComplete | main.py:590 | every piece that is not blank contributes its stripped form |
| Config.EntriesOfClean | main.py:590 | pieces already stripped and non-empty are kept as they are |
| Config.ParseAllowedTraders | main.py:588-592 | unset or empty gives None; otherwise every entry is non-empty and stripped |
| Config.ParsedAllowlist | main.py:588-592 | an entry is in the parsed allowlist iff it is the non-empty stripped form of a comma-separated piece, and no entry contains a comma |
| Config.ParseJoinedAllowlist | main.py:588-592 | a comma-joined list of clean entries parses back to that list |
| Config.CommasOnlyIsEmptyAllowlist | main.py:588-592 | a value of only commas gives an allowlist that is set but empty |
| Config.ValidateConfig | main.py:613-625 | checked in order: a missing username, then a missing password, then an empty or absent allowlist refuse to start; otherwise start with those values |
| Config.ReadyAllowlistIsClean | main.py:588-625 | once start-up passes, the allowlist is non-empty and has no empty entry, so the empty-entry case of `TrustGate.EmptyEntryAdmitsEveryone` cannot arise |

## Left out

- IMAP plumbing is left out because it is network I/O. This covers `connect_to_email`, the
  search and fetch of `get_trade_offer_emails`, `mail.store` and logout. A fetch appears only
  as the `fetched` flag of a message, and marking read as the mailbox trace.
- MIME handling is left out because it is library code. Message bodies and decoded subjects
  are inputs. This covers the body walk of `get_email_body` and the base64 subject decoding.
  Any exception inside the message loop of `get_trade_offer_emails` discards the whole
  batch: the handler at `main.py:180-182` returns an empty list. Such exceptions include a
  message without a subject header (`main.py:146`) and a body that does not decode as UTF-8
  (`main.py:190`, `main.py:195`). The model does not capture that batch discard: each
  message contributes on its own.
- HTML parsing and regular-expression node selection are inputs. A `Document` holds these
  node lists in document order:
  - the profile links, avatar sources and level texts;
  - the full text;
  - the tables, with their item images and name divs;
  - the `tradeoffer/\d+/confirm` hrefs.

  A parser failure is a `None` document. The fallbacks that guard library failures inside
  `_extract_items` and `_extract_items_from_table` are not modelled.
- The friendship-date regular expressions are inputs: their captured groups are given per
  language. The "not friends" substring test is modelled.
- The HTTP session is an oracle, because its configuration is library code. This covers the
  headers and the transport-level `Retry` adapter. Every request for an offer's confirmation
  gets one of four outcomes: a response with status and body, a connection error or timeout,
  another request error, or an unexpected error.
- The randomised waits are not modelled, because they are floats and real time. What is kept
  is which kind of wait happens (short before a retry, long after a connection error) and when.
- The polling loop of `run`, the logging and `CHECK_INTERVAL` are not modelled, because they
  are I/O and environment access. The environment's values are inputs.
- The outcome of `mark_email_as_read` is not modelled: its result is ignored by the caller.
- `Text.Lower` approximates Unicode `str.lower()`: it lowers ASCII capitals and Ä, Ö, Ü
  only. The catalogue phrases are already in lower case.
- `Text.Strip` approximates `str.strip()`: it removes space, `\t`, `\n`, `\r`, `\v` and `\f` only.
- `Extraction.IsDigit` approximates Unicode `\d`: it matches ASCII digits only.
