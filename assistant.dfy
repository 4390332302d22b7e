/** `VoiceAssistant.handle_command`: classifies one utterance and answers it.
    The answer is an `Outcome`, the text the assistant speaks together with
    the one side effect it performs: none, opening a search page in the web
    browser, or ending the process. The clock is a parameter. */
module Assistant {
  import opened Text
  import Quote
  import Strftime

  datatype Outcome =
    | Reply(msg: string)
    | ReplyAndOpen(msg: string, url: string)
    | ReplyAndExit(msg: string)

  /** The local time and date at the moment the command is handled. */
  datatype Clock = Clock(hour: int, minute: int, year: int, month: int, day: int) {
    predicate Valid() {
      && 0 <= hour < 24 && 0 <= minute < 60
      && 1 <= year <= 9999 && 1 <= month <= 12 && 1 <= day <= 31
    }
  }

  const NotHeard := "I didn't hear anything."
  const Greeting := "Hello! How can I help you?"
  const AskQuery := "What would you like me to search for?"
  const Farewell := "Goodbye!"
  const Fallback := "Sorry, I don't know how to help with that."
  const SearchUrlPrefix := "https://www.google.com/search?q="
  const ExitWords: seq<string> := ["exit", "quit", "bye", "goodbye"]

  function TimeReply(now: Clock): string
    requires now.Valid()
  {
    "The time is " + Strftime.FormatTime(now.hour, now.minute)
  }

  function DateReply(now: Clock): string
    requires now.Valid()
  {
    "Today is " + Strftime.FormatDate(now.year, now.month, now.day)
  }

  function SearchReply(query: string): string {
    "Searching the web for " + query
  }

  function SearchUrl(query: string): string {
    SearchUrlPrefix + Quote.QuotePlus(query)
  }

  /** The command as it is classified: lower-cased, then stripped. */
  function Normalize(text: string): string {
    Strip(Lower(text))
  }

  predicate Greets(cmd: string) {
    Contains(cmd, "hello") || StartsWith(cmd, "hi")
  }

  predicate AsksSearch(cmd: string) {
    StartsWith(cmd, "search") || StartsWith(cmd, "find") || Contains(cmd, "search for")
  }

  /** Stripping any suffix of `s` leaves a piece of `s`. */
  lemma StripOfSuffixOccurs(s: string, k: nat)
    requires k <= |s|
    ensures Contains(s, Strip(s[k..]))
  {
    var t := s[k..];
    var a := |t| - |StripStart(t)|;
    OccursInSuffix(s, Strip(t), k, a);
    assert k + a <= |s|;
  }

  /** The search query: the stripped text after the first "search for" when
      there is one, otherwise the stripped text after the first space, and
      otherwise nothing. It is a piece of the command without white space
      at either end. */
  function ExtractQuery(cmd: string): (q: string)
    ensures q == [] || (!IsSpace(q[0]) && !IsSpace(q[|q| - 1]))
    ensures Contains(cmd, q)
  {
    if Contains(cmd, "search for") then
      var i := Find(cmd, "search for").value;
      SplitOnceJoin(cmd, "search for");
      assert SplitOnce(cmd, "search for")[1] == cmd[i + 10..];
      StripOfSuffixOccurs(cmd, i + 10);
      Strip(SplitOnce(cmd, "search for")[1])
    else
      var parts := SplitOnce(cmd, " ");
      if |parts| > 1 then
        var j := Find(cmd, " ").value;
        assert parts[1] == cmd[j + 1..];
        StripOfSuffixOccurs(cmd, j + 1);
        Strip(parts[1])
      else
        assert OccursAt(cmd, "", 0);
        ""
  }

  /** What `handle_command` does with a non-empty utterance once it is
      normalised. The checks run in order and the first that matches decides:
      greeting, time, date, search, exit, and otherwise the fallback answer. */
  function Respond(cmd: string, now: Clock): (r: Outcome)
    requires now.Valid()
    ensures r != Reply(NotHeard)
    ensures r.ReplyAndOpen? ==> StartsWith(r.url, SearchUrlPrefix)
    ensures r.ReplyAndExit? ==> r.msg == Farewell
  {
    if Greets(cmd) then Reply(Greeting)
    else if Contains(cmd, "time") then Reply(TimeReply(now))
    else if Contains(cmd, "date") then
      assert DateReply(now)[0] != NotHeard[0];
      Reply(DateReply(now))
    else if AsksSearch(cmd) then
      var query := ExtractQuery(cmd);
      if query == [] then Reply(AskQuery)
      else ReplyAndOpen(SearchReply(query), SearchUrl(query))
    else if cmd in ExitWords then ReplyAndExit(Farewell)
    else Reply(Fallback)
  }

  /** `handle_command(text)`: only the empty string is "not heard"; anything
      else is answered by its normalised form alone. */
  function HandleCommand(text: string, now: Clock): (r: Outcome)
    requires now.Valid()
    ensures r == Reply(NotHeard) <==> text == []
    ensures r.ReplyAndOpen? ==> StartsWith(r.url, SearchUrlPrefix)
    ensures r.ReplyAndExit? ==> r.msg == Farewell
  {
    if text == [] then Reply(NotHeard) else Respond(Normalize(text), now)
  }
}
