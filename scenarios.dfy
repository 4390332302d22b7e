/** Concrete commands and what the interpreter does with them. Apart from
    the padded "Quit", each is stated for the normalised command, which is
    what every non-empty utterance is answered by. */
module Scenarios {
  import opened Wrappers
  import opened Text
  import opened Assistant
  import Properties

  /** "history" starts with "hi", so it greets. */
  lemma HistoryGreets(cmd: string, now: Clock)
    requires cmd == "history" && now.Valid()
    ensures Respond(cmd, now) == Reply(Greeting)
  {
    assert StartsWith(cmd, "hi");
    Properties.GreetingIff(cmd, now);
  }

  /** "hello" wins over "time". */
  lemma HelloBeforeTime(cmd: string, now: Clock)
    requires cmd == "hello, what time is it" && now.Valid()
    ensures Contains(cmd, "time")
    ensures Respond(cmd, now) == Reply(Greeting)
  {
    assert OccursAt(cmd, "hello", 0);
    assert OccursAt(cmd, "time", 12);
    Properties.GreetingIff(cmd, now);
  }

  lemma SearchForTheTimeChecks(cmd: string)
    requires cmd == "search for the time"
    ensures !Greets(cmd) && Contains(cmd, "time") && AsksSearch(cmd)
  {
    Properties.MissingCharacter(cmd, "hello", 3);
    assert cmd[0] != 'h';
    assert OccursAt(cmd, "time", 15);
    assert StartsWith(cmd, "search");
  }

  /** "time" wins over "search for": no browser is opened. */
  lemma SearchForTheTimeTellsTime(cmd: string, now: Clock)
    requires cmd == "search for the time" && now.Valid()
    ensures AsksSearch(cmd)
    ensures Respond(cmd, now) == Reply(TimeReply(now))
  {
    SearchForTheTimeChecks(cmd);
    Properties.TimeIff(cmd, now);
  }

  lemma SearchForADateChecks(cmd: string)
    requires cmd == "search for a date"
    ensures !Greets(cmd) && !Contains(cmd, "time") && Contains(cmd, "date") && AsksSearch(cmd)
  {
    Properties.MissingCharacter(cmd, "hello", 3);
    assert cmd[0] != 'h';
    Properties.MissingCharacter(cmd, "time", 1);
    assert OccursAt(cmd, "date", 13);
    assert StartsWith(cmd, "search");
  }

  /** "date" wins over "search for". */
  lemma SearchForADateTellsDate(cmd: string, now: Clock)
    requires cmd == "search for a date" && now.Valid()
    ensures AsksSearch(cmd)
    ensures Respond(cmd, now) == Reply(DateReply(now))
  {
    SearchForADateChecks(cmd);
    Properties.DateIff(cmd, now);
  }

  /** The query follows "search for". */
  lemma SearchForCatsQuery(cmd: string)
    requires cmd == "search for cats"
    ensures ExtractQuery(cmd) == "cats"
  {
    assert StartsWith(cmd, "search for");
    assert Find(cmd, "search for") == Some(0);
    Properties.QueryAfterSearchFor(cmd);
    CatsTail(cmd);
  }

  lemma CatsTail(cmd: string)
    requires cmd == "search for cats"
    ensures Strip(cmd[10..]) == "cats"
  {
    assert cmd[10..] == " " + "cats" + "";
    StripUnique(" ", "cats", "");
  }

  /** "search" and "search for cats" mention none of the earlier keywords. */
  lemma PlainSearchChecks(cmd: string)
    requires cmd == "search" || cmd == "search for cats"
    ensures !Greets(cmd) && !Contains(cmd, "time") && !Contains(cmd, "date") && AsksSearch(cmd)
  {
    Properties.MissingCharacter(cmd, "hello", 3);
    assert cmd[0] != 'h';
    Properties.MissingCharacter(cmd, "time", 1);
    Properties.MissingCharacter(cmd, "date", 0);
    assert StartsWith(cmd, "search");
  }

  /** Letters are sent as they are: the browser opens
      "https://www.google.com/search?q=cats". */
  lemma CatsUrl()
    ensures SearchUrl("cats") == SearchUrlPrefix + "cats"
  {
  }

  /** ... and the browser is opened on it. */
  lemma SearchForCatsOpensBrowser(cmd: string, now: Clock)
    requires cmd == "search for cats" && now.Valid()
    ensures Respond(cmd, now) == ReplyAndOpen(SearchReply("cats"), SearchUrl("cats"))
  {
    PlainSearchChecks(cmd);
    SearchForCatsQuery(cmd);
    Properties.SearchIff(cmd, now);
  }

  lemma FirstSpaceOfFindRedShoes(cmd: string)
    requires cmd == "find red shoes"
    ensures Find(cmd, " ") == Some(4)
  {
    assert OccursAt(cmd, " ", 4);
    Properties.MissingCharacter(cmd[..4], " ", 0);
    assert forall j: nat :: j < 4 ==> OccursAt(cmd, " ", j) ==> OccursAt(cmd[..4], " ", j);
  }

  lemma RedShoesTail(cmd: string)
    requires cmd == "find red shoes"
    ensures Strip(cmd[5..]) == "red shoes"
  {
    assert cmd[5..] == "" + "red shoes" + "";
    StripUnique("", "red shoes", "");
  }

  /** Without "search for", the query is what follows the first space. */
  lemma FindRedShoes(cmd: string)
    requires cmd == "find red shoes"
    ensures ExtractQuery(cmd) == "red shoes"
  {
    Properties.MissingCharacter(cmd, "search for", 2);
    FirstSpaceOfFindRedShoes(cmd);
    Properties.QueryAfterFirstSpace(cmd);
    RedShoesTail(cmd);
  }

  /** Neither "search for" nor a space: the query is empty. */
  lemma SearchAloneQuery(cmd: string)
    requires cmd == "search"
    ensures ExtractQuery(cmd) == []
  {
    Properties.MissingCharacter(cmd, "search for", 6);
    Properties.MissingCharacter(cmd, " ", 0);
    Properties.QueryAfterFirstSpace(cmd);
  }

  /** "search" alone asks what to search for and opens nothing. */
  lemma SearchAloneAsks(cmd: string, now: Clock)
    requires cmd == "search" && now.Valid()
    ensures Respond(cmd, now) == Reply(AskQuery)
  {
    PlainSearchChecks(cmd);
    SearchAloneQuery(cmd);
    Properties.AskQueryIff(cmd, now);
  }

  lemma FinderChecks(cmd: string)
    requires cmd == "finder"
    ensures !Greets(cmd) && !Contains(cmd, "time") && !Contains(cmd, "date") && AsksSearch(cmd)
  {
    Properties.MissingCharacter(cmd, "hello", 0);
    assert cmd[0] != 'h';
    Properties.MissingCharacter(cmd, "time", 0);
    Properties.MissingCharacter(cmd, "date", 1);
    assert StartsWith(cmd, "find");
  }

  /** "finder" has neither "search for" nor a space: the query is empty. */
  lemma FinderQuery(cmd: string)
    requires cmd == "finder"
    ensures ExtractQuery(cmd) == []
  {
    Properties.MissingCharacter(cmd, "search for", 0);
    Properties.MissingCharacter(cmd, " ", 0);
    Properties.QueryAfterFirstSpace(cmd);
  }

  /** "finder" starts with "find" but has no space: it asks for a query. */
  lemma FinderAsks(cmd: string, now: Clock)
    requires cmd == "finder" && now.Valid()
    ensures Respond(cmd, now) == Reply(AskQuery)
  {
    FinderChecks(cmd);
    FinderQuery(cmd);
    Properties.AskQueryIff(cmd, now);
  }

  /** Case and surrounding spaces are ignored for the exit words. */
  lemma PaddedQuitExits(text: string, now: Clock)
    requires text == " Quit " && now.Valid()
    ensures HandleCommand(text, now) == ReplyAndExit(Farewell)
  {
    PaddedQuitNormalizes(text);
    Properties.ExitIff(text, now);
  }

  lemma PaddedQuitNormalizes(text: string)
    requires text == " Quit "
    ensures Normalize(text) == "quit"
  {
    PaddedQuitFolds(text);
    PaddedQuitStrips(Lower(text));
  }

  lemma PaddedQuitFolds(text: string)
    requires text == " Quit "
    ensures Lower(text) == " quit "
  {
    assert LowerChar('Q') == 'q';
  }

  lemma PaddedQuitStrips(folded: string)
    requires folded == " quit "
    ensures Strip(folded) == "quit"
  {
    StripUnique(" ", "quit", " ");
    assert " " + "quit" + " " == folded;
  }

  lemma ExitNowChecks(cmd: string)
    requires cmd == "exit now"
    ensures !Greets(cmd) && !Contains(cmd, "time") && !Contains(cmd, "date") && !AsksSearch(cmd)
    ensures cmd !in ExitWords
  {
    Properties.MissingCharacter(cmd, "hello", 0);
    assert cmd[0] != 'h';
    Properties.MissingCharacter(cmd, "time", 2);
    Properties.MissingCharacter(cmd, "date", 1);
    assert cmd[0] != 's' && cmd[0] != 'f';
    Properties.MissingCharacter(cmd, "search for", 2);
  }

  /** The exit words must match exactly: "exit now" gets the fallback. */
  lemma ExitNowFallsBack(cmd: string, now: Clock)
    requires cmd == "exit now" && now.Valid()
    ensures Respond(cmd, now) == Reply(Fallback)
  {
    ExitNowChecks(cmd);
    Properties.FallbackIff(cmd, now);
  }
}
