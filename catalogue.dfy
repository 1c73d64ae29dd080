/**
 * The per-language phrase catalogue of the auto-accepter (`language_patterns`): for each
 * language, twelve categories of lower-case phrases, in the order the source lists them.
 */
module Catalogue {

  datatype Language = German | English

  datatype Category =
    | TradeConfirmation | Hello | YourItems | TheirItems | NoItemsSelected | NotFriends
    | FriendsSince | SteamLevel | SendOffer | CancelTrade | SuccessIndicators | ErrorIndicators

  /** The categories in the order of the source's dictionary (its `.values()` order). */
  const Categories: seq<Category> := [
    TradeConfirmation, Hello, YourItems, TheirItems, NoItemsSelected, NotFriends,
    FriendsSince, SteamLevel, SendOffer, CancelTrade, SuccessIndicators, ErrorIndicators
  ]

  /** The phrases of one category in one language. */
  function Phrases(lang: Language, cat: Category): seq<string>
  {
    match lang
    case German => (
      match cat
      case TradeConfirmation => ["handelsbest", "handelsangebot"]
      case Hello => ["hallo"]
      case YourItems => ["ihre gegenstände", "ihre items"]
      case TheirItems => ["gegenstände von", "items von"]
      case NoItemsSelected => ["haben keine gegenstände", "keine gegenstände zum austausch"]
      case NotFriends => ["sind mit diesem nutzer nicht befreundet", "nicht befreundet"]
      case FriendsSince => ["auf steam seit dem", "ist auf steam seit"]
      case SteamLevel => ["hat steam-level", "steam-level"]
      case SendOffer => ["handelsangebot senden"]
      case CancelTrade => ["handel annullieren", "annullieren"]
      case SuccessIndicators => ["handel wurde akzeptiert", "erfolgreich", "bestätigt"]
      case ErrorIndicators => ["fehler", "ungültig", "abgelaufen", "nicht gefunden", "fehlgeschlagen"])
    case English => (
      match cat
      case TradeConfirmation => ["trade confirmation", "trade offer"]
      case Hello => ["hello", "hi"]
      case YourItems => ["your items", "items you"]
      case TheirItems => ["items from", "their items"]
      case NoItemsSelected => ["you have not selected any items", "no items selected"]
      case NotFriends => ["you are not friends", "not friends with"]
      case FriendsSince => ["you've been friends since", "friends since"]
      case SteamLevel => ["steam level", "level"]
      case SendOffer => ["send trade offer", "accept trade"]
      case CancelTrade => ["cancel trade", "decline"]
      case SuccessIndicators => ["trade has been accepted", "successfully", "confirmed", "trade offer accepted"]
      case ErrorIndicators => ["error", "invalid", "expired", "not found", "failed"])
  }

  /** The whole catalogue of one language, one phrase list per category. */
  function Patterns(lang: Language): (cats: seq<seq<string>>)
    ensures |cats| == |Categories|
    ensures forall i :: 0 <= i < |Categories| ==> cats[i] == Phrases(lang, Categories[i])
  {
    seq(|Categories|, i requires 0 <= i < |Categories| => Phrases(lang, Categories[i]))
  }
}
