/** What `handle_command` promises, stated over all inputs: which outcome each
    kind of command gets and in what order the checks take precedence, how the
    command is normalised, how the query is extracted, and what the search URL
    carries. */
module Properties {
  import opened Wrappers
  import opened Text
  import Quote
  import Strftime
  import opened Assistant

  /** The messages that carry no side effect are pairwise distinct, so a
      `Reply` tells which check answered. */
  lemma RepliesDistinct(now: Clock)
    requires now.Valid()
    ensures TimeReply(now) != Greeting && TimeReply(now) != AskQuery && TimeReply(now) != Fallback
    ensures DateReply(now) != Greeting && DateReply(now) != AskQuery && DateReply(now) != Fallback
    ensures TimeReply(now) != DateReply(now)
    ensures TimeReply(now) != NotHeard && DateReply(now) != NotHeard
  {
    assert TimeReply(now)[0] == 'T' && TimeReply(now)[1] == 'h';
    assert DateReply(now)[0] == 'T' && DateReply(now)[1] == 'o';
  }

  /** Only the empty string is "not heard": white space alone is non-empty,
      strips to nothing and matches no check, so it gets the fallback. */
  lemma WhitespaceOnlyFallsBack(text: string, now: Clock)
    requires now.Valid()
    requires text != [] && AllSpace(text)
    ensures HandleCommand(text, now) == Reply(Fallback)
  {
    LowerOfSpaces(text);
    StripEmptyIff(text);
    assert Normalize(text) == [];
  }

  /** Letter case does not matter. */
  lemma CaseInsensitive(t1: string, t2: string, now: Clock)
    requires now.Valid()
    requires |t1| == |t2| && forall i :: 0 <= i < |t1| ==> LowerChar(t1[i]) == LowerChar(t2[i])
    ensures HandleCommand(t1, now) == HandleCommand(t2, now)
  {
    assert Lower(t1) == Lower(t2);
  }

  /** White space around a non-empty command does not matter. */
  lemma PaddingInsensitive(p: string, t: string, q: string, now: Clock)
    requires now.Valid()
    requires AllSpace(p) && AllSpace(q) && t != []
    ensures HandleCommand(p + t + q, now) == HandleCommand(t, now)
  {
    LowerConcat(p + t, q);
    LowerConcat(p, t);
    LowerOfSpaces(p);
    LowerOfSpaces(q);
    StripPadded(p, Lower(t), q);
  }

  /** The greeting test of `handle_command` in terms of `str.find`: "hello"
      occurs somewhere, or the first "hi" is at the start. */
  lemma GreetsByFind(cmd: string)
    ensures Greets(cmd) <==> Find(cmd, "hello").Some? || Find(cmd, "hi") == Some(0)
  {
    StartsWithFind(cmd, "hi");
  }

  /** The search test in terms of `str.find`. */
  lemma AsksSearchByFind(cmd: string)
    ensures AsksSearch(cmd)
      <==> Find(cmd, "search") == Some(0) || Find(cmd, "find") == Some(0) || Find(cmd, "search for").Some?
  {
    StartsWithFind(cmd, "search");
    StartsWithFind(cmd, "find");
  }

  /** The greeting is given exactly when the command mentions "hello" or
      starts with "hi", whatever else it says. */
  lemma GreetingIff(cmd: string, now: Clock)
    requires now.Valid()
    ensures Respond(cmd, now) == Reply(Greeting) <==> Greets(cmd)
  {
    assert TimeReply(now)[0] != Greeting[0] && DateReply(now)[0] != Greeting[0];
  }

  /** The time is told exactly when the command mentions "time" and does not greet. */
  lemma TimeIff(cmd: string, now: Clock)
    requires now.Valid()
    ensures Respond(cmd, now) == Reply(TimeReply(now)) <==> !Greets(cmd) && Contains(cmd, "time")
  {
    RepliesDistinct(now);
  }

  /** The date is told exactly when the command mentions "date" and neither
      greets nor mentions "time". */
  lemma DateIff(cmd: string, now: Clock)
    requires now.Valid()
    ensures Respond(cmd, now) == Reply(DateReply(now))
      <==> !Greets(cmd) && !Contains(cmd, "time") && Contains(cmd, "date")
  {
    RepliesDistinct(now);
  }

  /** The browser is opened exactly for a search request, not pre-empted by an
      earlier check, whose query is non-empty; it is opened on the search
      URL for that query, and the reply names the query. */
  lemma SearchIff(cmd: string, now: Clock)
    requires now.Valid()
    ensures Respond(cmd, now).ReplyAndOpen?
      <==> && !Greets(cmd) && !Contains(cmd, "time") && !Contains(cmd, "date")
           && AsksSearch(cmd) && ExtractQuery(cmd) != []
    ensures Respond(cmd, now).ReplyAndOpen? ==>
      Respond(cmd, now) == ReplyAndOpen(SearchReply(ExtractQuery(cmd)), SearchUrl(ExtractQuery(cmd)))
  {
  }

  /** A search request without a query asks for one and opens nothing. */
  lemma AskQueryIff(cmd: string, now: Clock)
    requires now.Valid()
    ensures Respond(cmd, now) == Reply(AskQuery)
      <==> && !Greets(cmd) && !Contains(cmd, "time") && !Contains(cmd, "date")
           && AsksSearch(cmd) && ExtractQuery(cmd) == []
  {
    RepliesDistinct(now);
  }

  /** A pattern with a character that `s` lacks does not occur in `s`. */
  lemma MissingCharacter(s: string, p: string, k: nat)
    requires k < |p| && p[k] !in s
    ensures !Contains(s, p)
  {
    forall i: nat | i <= |s|
      ensures !OccursAt(s, p, i)
    {
      if i + |p| <= |s| {
        assert s[i..i + |p|][k] == s[i + k];
        assert s[i + k] in s;
      }
    }
  }

  /** The exit words trigger none of the earlier checks: none of them has an
      'h' (for "hello" and "hi"), an 'm' (for "time"), an 'a' (for "date",
      "search" and "search for") or an 'n' (for "find"). */
  lemma ExitWordsPassEarlierChecks(cmd: string)
    requires cmd in ExitWords
    ensures !Greets(cmd) && !Contains(cmd, "time") && !Contains(cmd, "date") && !AsksSearch(cmd)
  {
    MissingCharacter(cmd, "hello", 0);
    MissingCharacter(cmd, "hi", 0);
    MissingCharacter(cmd, "time", 2);
    MissingCharacter(cmd, "date", 1);
    MissingCharacter(cmd, "search", 2);
    MissingCharacter(cmd, "search for", 2);
    MissingCharacter(cmd, "find", 2);
    assert StartsWith(cmd, "hi") ==> Contains(cmd, "hi");
    assert StartsWith(cmd, "search") ==> Contains(cmd, "search");
    assert StartsWith(cmd, "find") ==> Contains(cmd, "find");
  }

  /** The process ends exactly when the normalised command is one of the four
      exit words: an exact match, so "exit now" does not end it. */
  lemma ExitIff(text: string, now: Clock)
    requires now.Valid()
    ensures HandleCommand(text, now).ReplyAndExit? <==> text != [] && Normalize(text) in ExitWords
  {
    if text != [] {
      RespondExitIff(Normalize(text), now);
    }
  }

  lemma RespondExitIff(cmd: string, now: Clock)
    requires now.Valid()
    ensures Respond(cmd, now).ReplyAndExit? <==> cmd in ExitWords
  {
    if cmd in ExitWords {
      ExitWordsPassEarlierChecks(cmd);
    }
  }

  /** Everything else gets the fallback answer. */
  lemma FallbackIff(cmd: string, now: Clock)
    requires now.Valid()
    ensures Respond(cmd, now) == Reply(Fallback)
      <==> && !Greets(cmd) && !Contains(cmd, "time") && !Contains(cmd, "date")
           && !AsksSearch(cmd) && cmd !in ExitWords
  {
    RepliesDistinct(now);
  }

  /** The command is a piece of the folded utterance with no upper-case
      letter and no white space at either end. */
  lemma NormalizedCommand(text: string)
    ensures var cmd := Normalize(text);
      && (cmd == [] || (!IsSpace(cmd[0]) && !IsSpace(cmd[|cmd| - 1])))
      && (forall i :: 0 <= i < |cmd| ==> !IsUpper(cmd[i]))
      && Contains(Lower(text), cmd)
  {
    var folded := Lower(text);
    var cmd := Strip(folded);
    assert Normalize(text) == cmd;
    FoldedPiece(text, cmd, |folded| - |StripStart(folded)|);
  }

  lemma FoldedPiece(text: string, piece: string, a: nat)
    requires OccursAt(Lower(text), piece, a)
    ensures forall i :: 0 <= i < |piece| ==> !IsUpper(piece[i])
    ensures Contains(Lower(text), piece)
  {
    forall i | 0 <= i < |piece|
      ensures !IsUpper(piece[i])
    {
      assert piece[i] == Lower(text)[a..a + |piece|][i] == Lower(text)[a + i];
    }
  }

  /** The time reply names the hour and minute of the clock reading. */
  lemma TimeReplyNamesClock(now: Clock)
    requires now.Valid()
    ensures var r := TimeReply(now);
      && |r| == 20 && r[..12] == "The time is "
      && Strftime.ParseTime(r[12..]) == Some((now.hour, now.minute))
  {
    Strftime.ParseFormatTime(now.hour, now.minute);
    assert TimeReply(now)[12..] == Strftime.FormatTime(now.hour, now.minute);
  }

  /** The date reply names the year, month and day of the clock reading. */
  lemma DateReplyNamesClock(now: Clock)
    requires now.Valid()
    ensures var r := DateReply(now);
      && |r| > 9 && r[..9] == "Today is "
      && Strftime.ParseDate(r[9..]) == Some((now.year, now.month, now.day))
  {
    assert DateReply(now)[9..] == Strftime.FormatDate(now.year, now.month, now.day);
    Strftime.ParseFormatDate(now.year, now.month, now.day);
  }

  /** The query part of the search URL decodes to exactly the query's bytes. */
  lemma SearchUrlCarriesQuery(query: string)
    ensures StartsWith(SearchUrl(query), SearchUrlPrefix)
    ensures Quote.Unquote(SearchUrl(query)[|SearchUrlPrefix|..]) == Some(Quote.Utf8String(query))
    ensures forall i :: |SearchUrlPrefix| <= i < |SearchUrl(query)| ==> Quote.IsQuoted(SearchUrl(query)[i])
  {
    assert SearchUrl(query)[|SearchUrlPrefix|..] == Quote.QuotePlus(query);
    Quote.UnquoteQuotePlus(query);
  }

  /** The query follows the first "search for" when there is one. */
  lemma QueryAfterSearchFor(cmd: string)
    requires Find(cmd, "search for").Some?
    ensures ExtractQuery(cmd) == Strip(cmd[Find(cmd, "search for").value + 10..])
  {
  }

  /** Otherwise it follows the first space, and without a space it is empty. */
  lemma QueryAfterFirstSpace(cmd: string)
    requires Find(cmd, "search for").None?
    ensures Find(cmd, " ").Some? ==> ExtractQuery(cmd) == Strip(cmd[Find(cmd, " ").value + 1..])
    ensures Find(cmd, " ").None? ==> ExtractQuery(cmd) == []
  {
  }
}
