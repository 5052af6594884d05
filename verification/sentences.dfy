/**
 * The sentences a packet holds: either one the external NMEA 0183 library
 * decoded, or the fallback `UnknownParser` that keeps a line the library
 * could not decode (src/main/java/sentence/UnknownParser.java).
 */
module Sentences {
  import opened Wrappers

  /** The library's talker identifier (an enumeration there; only its name is kept). */
  datatype TalkerId = TalkerId(code: string)

  /**
   * The "could not decode" sentence. Its only state is the raw line it was
   * built from; every observer returns a constant, `null` (None) or that line,
   * and every mutator leaves the value as it was.
   */
  datatype UnknownParser = UnknownParser(source: string)
  {
    function GetBeginChar(): char { 0 as char }

    function GetFieldCount(): int { 0 }

    function GetSentenceId(): Option<string> { None }

    function GetTalkerId(): Option<TalkerId> { None }

    predicate IsAISSentence() { false }

    predicate IsProprietary() { false }

    predicate IsValid() { false }

    function ToSentence(i: int): Option<string> { None }

    function ToString(): string { source }

    /** `reset()`: an empty body, so the object afterwards is the one before. */
    function Reset(): UnknownParser { this }

    /** `setBeginChar(c)`: an empty body. */
    function SetBeginChar(c: char): UnknownParser { this }

    /** `setTalkerId(t)`: an empty body. */
    function SetTalkerId(t: TalkerId): UnknownParser { this }

    /** Everything a caller can observe of the object, gathered in one value. */
    function Observe(): Observation
    {
      Observation(GetBeginChar(), GetFieldCount(), GetSentenceId(), GetTalkerId(),
                  IsAISSentence(), IsProprietary(), IsValid(), ToString())
    }
  }

  datatype Observation = Observation(
    beginChar: char, fieldCount: int, sentenceId: Option<string>, talkerId: Option<TalkerId>,
    ais: bool, proprietary: bool, valid: bool, text: string)

  /** The constructor `UnknownParser(source)`: `toString()` gives the line back verbatim. */
  function NewUnknownParser(source: string): (u: UnknownParser)
    ensures u.ToString() == source
    ensures u.GetSentenceId().None?
  {
    UnknownParser(source)
  }

  /** The constants every UnknownParser reports, whatever its line. */
  lemma UnknownObservers(u: UnknownParser, i: int)
    ensures u.GetBeginChar() == 0 as char && u.GetFieldCount() == 0
    ensures u.GetSentenceId() == None && u.GetTalkerId() == None
    ensures !u.IsValid() && !u.IsAISSentence() && !u.IsProprietary()
    ensures u.ToSentence(i) == None
  {
  }

  /** `reset`, `setBeginChar` and `setTalkerId` change nothing a caller can observe. */
  lemma UnknownMutatorsAreNoOps(u: UnknownParser, c: char, t: TalkerId)
    ensures u.Reset().Observe() == u.Observe()
    ensures u.SetBeginChar(c).Observe() == u.Observe()
    ensures u.SetTalkerId(t).Observe() == u.Observe()
    ensures u.Reset().source == u.SetBeginChar(c).source == u.SetTalkerId(t).source == u.source
  {
  }

  /**
   * A sentence as `PacketParser` sees it: a decoded sentence of the
   * library (its identifier and the line it came from), or the fallback.
   */
  datatype Sentence =
    | Decoded(id: string, line: string)
    | Unknown(parser: UnknownParser)

  /** `getSentenceId()`: the identifier of a decoded sentence, `null` for the fallback. */
  function SentenceId(s: Sentence): (r: Option<string>)
    ensures r.None? <==> s.Unknown?
  {
    match s
    case Decoded(id, _) => Some(id)
    case Unknown(u) => u.GetSentenceId()
  }

  /** The input line a sentence was made from. */
  function Source(s: Sentence): string
  {
    match s
    case Decoded(_, line) => line
    case Unknown(u) => u.ToString()
  }
}
