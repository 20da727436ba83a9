/** What holds when the two pages meet: a game built on the authoring page,
    carried in a token, and played on the game page. */
module Sharing {
  import opened Wrappers
  import opened Whitespace
  import opened PhpStrings
  import opened Payload
  import opened Authoring
  import opened Tracker

  /** Given a codec that round-trips, every game the authoring page builds is
      accepted by the game page, which shows its clue and compares guesses
      with its answer. */
  lemma AuthoredGameLoads(codec: Codec, form: Form)
    requires RoundTrips(codec)
    requires GenerateGame(form).Success?
    ensures
      var g := GenerateGame(form).value;
      && LoadGame(codec, codec.encode(ToJson(g))) == Success(Game(g.clue, JString(g.answer)))
      && AnswerText(codec, codec.encode(ToJson(g))) == Some(g.answer)
  {
    var g := GenerateGame(form).value;
    assert codec.decode(codec.encode(ToJson(g))) == Success(ToJson(g));
  }

  /** A string the authoring page produced is also left alone by PHP `trim`
      unless it starts or ends with NUL, the one character only PHP strips. */
  lemma JsTightIsPhpTight(s: string)
    requires Tight(JavaScript, s)
    requires |s| > 0 ==> s[0] != '\0' && s[|s| - 1] != '\0'
    ensures Trim(Php, s) == s
  {
    if |s| > 0 {
      PhpSpaceBeyondJs(s[0]);
      PhpSpaceBeyondJs(s[|s| - 1]);
    }
    TrimTight(Php, s);
  }

  /** The first time a player views an authored game and submits the stored
      answer, that is the author's input after JavaScript `trim`, the game is
      solved in one attempt, as long as that answer is not "0" and does not
      start or end with NUL. The input as typed may not solve it: JavaScript
      strips more whitespace than PHP, so a trailing no-break space that the
      authoring page removed stays on a guess PHP trims. */
  lemma AuthoredAnswerSolves(codec: Codec, fingerprint: string -> GameId, now: string, session: Session, form: Form)
    requires RoundTrips(codec)
    requires GenerateGame(form).Success?
    requires GenerateGame(form).value.answer != "0"
    requires GenerateGame(form).value.answer[0] != '\0'
    requires GenerateGame(form).value.answer[|GenerateGame(form).value.answer| - 1] != '\0'
    requires fingerprint(codec.encode(ToJson(GenerateGame(form).value))) !in session
    ensures
      var g := GenerateGame(form).value;
      var token := codec.encode(ToJson(g));
      var solved := GameState([Attempt(g.answer, true, now)], true);
      Handle(codec, fingerprint, now, session, Request(Some(token), Some(g.answer), false))
        == Response(session[fingerprint(token) := solved], GamePage(g.clue, solved, true))
  {
    var g := GenerateGame(form).value;
    AuthoredGameLoads(codec, form);
    JsTightIsPhpTight(g.answer);
    FirstGuessOfAnswerSolves(codec, fingerprint, now, session, codec.encode(ToJson(g)), g.clue, g.answer);
  }

  /** A guess compared with the answer "0" is never both recorded and correct:
      the only guess equal to "0" ignoring case is "0" itself, which PHP's
      `empty()` discards. */
  lemma ZeroNeverMatches(st: GameState, posted: Option<string>, now: string)
    requires !st.solved
    ensures !SubmitGuess(st, posted, "0", now).solved
  {
    OnlyZeroMatchesZero(PostedGuess(posted));
  }

  /** The authoring page accepts "0" as an answer (a non-empty string is
      truthy in JavaScript), yet no run of guesses ever solves that game. */
  lemma {:induction false} ZeroAnswerUnwinnable(form: Form, subs: seq<Submission>)
    requires JsTrim(form.clue) != "" && JsTrim(form.answer) == "0"
    ensures GenerateGame(form).Success? && GenerateGame(form).value.answer == "0"
    ensures !Replay(Fresh, subs, "0").solved
  {
    NeverSolvedFrom(Fresh, subs);
  }

  /** An answer that starts or ends with NUL. JavaScript `trim` keeps NUL, so
      the authoring page can store such an answer, but PHP `trim` strips it
      from every guess. */
  predicate NulEnded(answer: string) {
    |answer| > 0 && (answer[0] == '\0' || answer[|answer| - 1] == '\0')
  }

  /** Against an answer that starts or ends with NUL, no guess is ever both
      recorded and correct: a trimmed guess never starts or ends with NUL, and
      ASCII case folding maps only NUL to NUL. */
  lemma NulNeverMatches(st: GameState, posted: Option<string>, answer: string, now: string)
    requires !st.solved
    requires NulEnded(answer)
    ensures !SubmitGuess(st, posted, answer, now).solved
  {
  }

  /** The authoring page accepts an answer typed with a leading NUL (which
      JavaScript `trim` keeps), yet no run of guesses ever solves that game. */
  lemma {:induction false} NulAnswerUnwinnable(form: Form, subs: seq<Submission>)
    requires JsTrim(form.clue) != "" && |form.answer| > 0 && form.answer[0] == '\0'
    ensures GenerateGame(form).Success? && NulEnded(GenerateGame(form).value.answer)
    ensures !Replay(Fresh, subs, GenerateGame(form).value.answer).solved
  {
    NulNeverSolvedFrom(Fresh, subs, GenerateGame(form).value.answer);
  }

  /** From any unsolved state, guesses against a NUL-ended answer never solve
      the game. */
  lemma {:induction false} NulNeverSolvedFrom(st: GameState, subs: seq<Submission>, answer: string)
    requires !st.solved
    requires NulEnded(answer)
    ensures !Replay(st, subs, answer).solved
    decreases |subs|
  {
    if |subs| > 0 {
      NulNeverMatches(st, subs[0].posted, answer, subs[0].time);
      NulNeverSolvedFrom(SubmitGuess(st, subs[0].posted, answer, subs[0].time), subs[1..], answer);
    }
  }

  /** From any unsolved state, guesses against "0" never solve the game. */
  lemma {:induction false} NeverSolvedFrom(st: GameState, subs: seq<Submission>)
    requires !st.solved
    ensures !Replay(st, subs, "0").solved
    decreases |subs|
  {
    if |subs| > 0 {
      ZeroNeverMatches(st, subs[0].posted, subs[0].time);
      NeverSolvedFrom(SubmitGuess(st, subs[0].posted, "0", subs[0].time), subs[1..]);
    }
  }
}
