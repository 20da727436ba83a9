/** The game page's request handler: it decodes the token, checks the payload,
    keeps one `{attempts, solved}` record per game in the player's session,
    records guesses and honours a reset. */
module Tracker {
  import opened Wrappers
  import opened Whitespace
  import opened PhpStrings
  import opened Payload

  /** One recorded guess: the trimmed text, whether it matched, and the
      `H:i:s` time it was made (supplied by the caller). */
  datatype Attempt = Attempt(guess: string, correct: bool, timestamp: string)

  /** A player's progress on one game. */
  datatype GameState = GameState(attempts: seq<Attempt>, solved: bool)

  /** The state a game starts in, and starts in again after a reset. */
  const Fresh: GameState := GameState([], false)

  /** `md5` of the token; the hash is a parameter of the handler. */
  type GameId = string

  /** `$_SESSION['games']`: the player's progress on every game seen so far. */
  type Session = map<GameId, GameState>

  /** What a request carries: the `data` query parameter, the posted
      `user_answer` field, and whether `reset_game` was posted. */
  datatype Request = Request(data: Option<string>, userAnswer: Option<string>, resetGame: bool)

  /** Why a token is refused. `Undecodable` and `MissingRequiredFields` are
      the page's own error messages ("Invalid base64 encoding", "Invalid JSON
      data", "Missing required fields"); `ClueNotScalar` is the TypeError
      `htmlspecialchars` raises on an array or object, which the page's
      `catch (Exception)` does not catch. */
  datatype LoadError = Undecodable(cause: DecodeError) | MissingRequiredFields | ClueNotScalar

  /** What the page takes from an accepted payload: the clue text (before HTML
      escaping) and the stored answer, as decoded and not trimmed. */
  datatype Game = Game(clue: string, answer: Json)

  /** The page the player gets back. */
  datatype Page =
    | Instructions
    | ErrorPage(error: LoadError)
    | Fatal
    | Redirect
    | GamePage(clue: string, state: GameState, showResult: bool)

  /** The page together with the session as it is left after the request. */
  datatype Response = Response(session: Session, page: Page)

  /** Decodes a token and checks its payload, in the page's order: base64,
      then JSON (a JSON `null` counts as invalid), then the presence of both
      `clue` and `answer`, then the clue's conversion to a string. */
  function LoadGame(codec: Codec, token: string): (r: Result<Game, LoadError>)
    ensures codec.decode(token).Failure? ==> r == Failure(Undecodable(codec.decode(token).error))
    ensures codec.decode(token) == Success(JNull) ==> r == Failure(Undecodable(InvalidJson))
    ensures r.Success? <==>
      && codec.decode(token).Success?
      && IsSet(codec.decode(token).value, "clue")
      && IsSet(codec.decode(token).value, "answer")
      && PhpString(codec.decode(token).value.fields["clue"]).Some?
    ensures r.Success? ==>
      && r.value.answer == codec.decode(token).value.fields["answer"]
      && Some(r.value.clue) == PhpString(codec.decode(token).value.fields["clue"])
    ensures r == Failure(MissingRequiredFields) <==>
      && codec.decode(token).Success?
      && codec.decode(token).value != JNull
      && (!IsSet(codec.decode(token).value, "clue") || !IsSet(codec.decode(token).value, "answer"))
    ensures r == Failure(ClueNotScalar) <==>
      && codec.decode(token).Success?
      && IsSet(codec.decode(token).value, "clue")
      && IsSet(codec.decode(token).value, "answer")
      && PhpString(codec.decode(token).value.fields["clue"]).None?
  {
    match codec.decode(token)
    case Failure(e) => Failure(Undecodable(e))
    case Success(payload) =>
      if payload == JNull then Failure(Undecodable(InvalidJson))
      else if !IsSet(payload, "clue") || !IsSet(payload, "answer") then Failure(MissingRequiredFields)
      else
        match PhpString(payload.fields["clue"])
        case None => Failure(ClueNotScalar)
        case Some(clue) => Success(Game(clue, payload.fields["answer"]))
  }

  /** Creates the game's record on first sight; a record already there is
      kept as it is, and no other game's record is touched. */
  function Init(session: Session, id: GameId): (r: Session)
    ensures id in r
    ensures id !in session ==> r[id] == Fresh
    ensures id in session ==> r == session
    ensures r.Keys == session.Keys + {id}
    ensures forall other :: other in session ==> r[other] == session[other] || other == id
  {
    if id in session then session else session[id := Fresh]
  }

  /** The posted guess after PHP `trim`; a missing field reads as "". */
  function PostedGuess(posted: Option<string>): string {
    if posted.Some? then Trim(Php, posted.value) else ""
  }

  /** Whether the guess is processed (compared with the answer, then
      appended): the trimmed guess is not `empty()` (so neither "" nor "0")
      and the game is not yet solved. When the comparison raises a TypeError
      the guess is processed but never appended. */
  predicate Records(st: GameState, posted: Option<string>) {
    !IsEmpty(PostedGuess(posted)) && !st.solved
  }

  /** Handles a submitted guess against the stored answer. When it is not
      recorded nothing changes. Otherwise exactly one attempt is appended
      after the untouched earlier ones; it holds the trimmed guess, and it is
      correct exactly when that guess equals the stored answer ignoring ASCII
      case. The game becomes solved exactly when that attempt is correct. */
  function SubmitGuess(st: GameState, posted: Option<string>, answer: string, now: string): (r: GameState)
    ensures !Records(st, posted) ==> r == st
    ensures Records(st, posted) ==>
      && |r.attempts| == |st.attempts| + 1
      && r.attempts[..|st.attempts|] == st.attempts
      && r.attempts[|st.attempts|].guess == PostedGuess(posted)
      && r.attempts[|st.attempts|].timestamp == now
      && (r.attempts[|st.attempts|].correct <==> EqualsIgnoreCase(PostedGuess(posted), answer))
      && (r.solved <==> r.attempts[|st.attempts|].correct)
    ensures st.solved ==> r.solved
  {
    if Records(st, posted) then
      var guess := PostedGuess(posted);
      var correct := Strcasecmp(guess, answer) == 0;
      GameState(st.attempts + [Attempt(guess, correct, now)], st.solved || correct)
    else
      st
  }

  /** Deletes this game's record and no other. */
  function Reset(session: Session, id: GameId): (r: Session)
    ensures id !in r
    ensures r.Keys == session.Keys - {id}
    ensures forall other :: other in r ==> r[other] == session[other]
  {
    session - {id}
  }

  /** The request handler, lines 117-177 of the game page. Without `data` the
      instructions are shown. A token that does not load leaves the session as
      it was and shows the error, except that a clue that is an array or
      object raises an uncaught TypeError in `htmlspecialchars` (Fatal).
      Otherwise the game's record is created if missing (a fresh one), the
      guess is handled against it, and the page shows the result; a reset
      request then deletes the record and redirects. A stored answer that is
      an array or object raises a TypeError in `strcasecmp`, after the record
      was created, but only when a guess is handled. */
  function Handle(codec: Codec, fingerprint: string -> GameId, now: string, session: Session, req: Request): (r: Response)
    ensures req.data.None? ==> r == Response(session, Instructions)
    ensures req.data.Some? && LoadGame(codec, req.data.value).Failure? ==>
      && r.session == session
      && var e := LoadGame(codec, req.data.value).error;
         r.page == (if e == ClueNotScalar then Fatal else ErrorPage(e))
    ensures req.data.Some? && LoadGame(codec, req.data.value).Success? && req.resetGame ==>
      r.page == Fatal || (r.page == Redirect && fingerprint(req.data.value) !in r.session)
    ensures req.data.Some? && LoadGame(codec, req.data.value).Success? && r.page == Fatal ==>
      && PhpString(LoadGame(codec, req.data.value).value.answer).None?
      && Records(Init(session, fingerprint(req.data.value))[fingerprint(req.data.value)], req.userAnswer)
      && r.session == Init(session, fingerprint(req.data.value))
    ensures req.data.Some? && LoadGame(codec, req.data.value).Success? ==>
      var id := fingerprint(req.data.value);
      var before := if id in session then session[id] else Fresh;
      PhpString(LoadGame(codec, req.data.value).value.answer).None? && Records(before, req.userAnswer) ==> r.page == Fatal
    ensures req.data.Some? && LoadGame(codec, req.data.value).Success? && !req.resetGame ==>
      fingerprint(req.data.value) in r.session
    ensures req.data.Some? && LoadGame(codec, req.data.value).Success? && !req.resetGame && r.page != Fatal ==>
      var id := fingerprint(req.data.value);
      var game := LoadGame(codec, req.data.value).value;
      var before := if id in session then session[id] else Fresh;
      && (PhpString(game.answer).Some? ==>
            r.session[id] == SubmitGuess(before, req.userAnswer, PhpString(game.answer).value, now))
      && (PhpString(game.answer).None? ==> r.session[id] == before)
      && r.page == GamePage(game.clue, r.session[id], !IsEmpty(PostedGuess(req.userAnswer)))
    ensures forall other :: req.data.None? || other != fingerprint(req.data.value) ==>
      (other in r.session <==> other in session) && (other in session ==> r.session[other] == session[other])
  {
    if req.data.None? then Response(session, Instructions)
    else
      var token := req.data.value;
      match LoadGame(codec, token)
      case Failure(e) => Response(session, if e == ClueNotScalar then Fatal else ErrorPage(e))
      case Success(game) =>
        var id := fingerprint(token);
        var loaded := Init(session, id);
        var st := loaded[id];
        if Records(st, req.userAnswer) && PhpString(game.answer).None? then
          Response(loaded, Fatal)
        else
          var st' := if Records(st, req.userAnswer) then SubmitGuess(st, req.userAnswer, PhpString(game.answer).value, now) else st;
          var updated := loaded[id := st'];
          if req.resetGame then Response(Reset(updated, id), Redirect)
          else Response(updated, GamePage(game.clue, st', !IsEmpty(PostedGuess(req.userAnswer))))
  }

  /** The shape guess handling keeps: the game is solved exactly when there
      is a last attempt and it is correct, and no earlier attempt is correct;
      so at most one attempt is ever correct, and it is the last. */
  ghost predicate Consistent(st: GameState) {
    && (st.solved <==> |st.attempts| > 0 && st.attempts[|st.attempts| - 1].correct)
    && forall i :: 0 <= i < |st.attempts| - 1 ==> !st.attempts[i].correct
  }

  /** Every attempt was judged against `answer`: it is a trimmed guess that is
      not `empty()`, marked correct exactly when it equals the answer ignoring
      ASCII case. */
  ghost predicate JudgedAgainst(st: GameState, answer: string) {
    forall i :: 0 <= i < |st.attempts| ==>
      && !IsEmpty(st.attempts[i].guess)
      && Tight(Php, st.attempts[i].guess)
      && (st.attempts[i].correct <==> EqualsIgnoreCase(st.attempts[i].guess, answer))
  }

  /** One guess keeps the invariant. */
  lemma SubmitGuessKeepsInvariant(st: GameState, posted: Option<string>, answer: string, now: string)
    requires Consistent(st) && JudgedAgainst(st, answer)
    ensures Consistent(SubmitGuess(st, posted, answer, now))
    ensures JudgedAgainst(SubmitGuess(st, posted, answer, now), answer)
  {
    if Records(st, posted) {
      EarlierAttemptsKept(st, posted, answer, now);
      NewAttemptJudged(st, posted, answer, now);
    }
  }

  /** The attempt a recorded guess appends is judged against the answer. */
  lemma NewAttemptJudged(st: GameState, posted: Option<string>, answer: string, now: string)
    requires Records(st, posted)
    ensures
      var a := SubmitGuess(st, posted, answer, now).attempts[|st.attempts|];
      !IsEmpty(a.guess) && Tight(Php, a.guess) && (a.correct <==> EqualsIgnoreCase(a.guess, answer))
  {
    assert Tight(Php, PostedGuess(posted));
  }

  /** A recorded guess leaves every earlier attempt as it was. */
  lemma EarlierAttemptsKept(st: GameState, posted: Option<string>, answer: string, now: string)
    requires Records(st, posted)
    ensures forall i :: 0 <= i < |st.attempts| ==> SubmitGuess(st, posted, answer, now).attempts[i] == st.attempts[i]
  {
    var r := SubmitGuess(st, posted, answer, now);
    var n := |st.attempts|;
    forall i | 0 <= i < n
      ensures r.attempts[i] == st.attempts[i]
    {
      assert r.attempts[..n][i] == r.attempts[i];
    }
  }

  /** A guess as submitted in one request, with the time it arrived. */
  datatype Submission = Submission(posted: Option<string>, time: string)

  /** The state after a player's guesses, one request each, in order. */
  function Replay(st: GameState, subs: seq<Submission>, answer: string): GameState
    decreases |subs|
  {
    if |subs| == 0 then st
    else Replay(SubmitGuess(st, subs[0].posted, answer, subs[0].time), subs[1..], answer)
  }

  /** Over any run of guesses the invariant holds, attempts are only ever
      appended (one per request at most), and a solved game stays exactly as
      it was. Starting from `Fresh`, where the invariant holds trivially, this
      means: solved iff the last attempt is correct, at most one correct
      attempt. */
  lemma {:induction false} ReplayKeepsInvariant(st: GameState, subs: seq<Submission>, answer: string)
    requires Consistent(st) && JudgedAgainst(st, answer)
    ensures Consistent(Replay(st, subs, answer))
    ensures JudgedAgainst(Replay(st, subs, answer), answer)
    ensures |st.attempts| <= |Replay(st, subs, answer).attempts| <= |st.attempts| + |subs|
    ensures Replay(st, subs, answer).attempts[..|st.attempts|] == st.attempts
    ensures st.solved ==> Replay(st, subs, answer) == st
    decreases |subs|
  {
    if |subs| > 0 {
      var next := SubmitGuess(st, subs[0].posted, answer, subs[0].time);
      SubmitGuessKeepsInvariant(st, subs[0].posted, answer, subs[0].time);
      ReplayKeepsInvariant(next, subs[1..], answer);
      var r := Replay(next, subs[1..], answer);
      assert r.attempts[..|next.attempts|][..|st.attempts|] == r.attempts[..|st.attempts|];
    }
  }

  /** The answer text a token's guesses are compared with, if it has one. */
  function AnswerText(codec: Codec, token: string): Option<string> {
    match LoadGame(codec, token)
    case Failure(_) => None
    case Success(game) => PhpString(game.answer)
  }

  /** The session's record for `token`, if any, satisfies the invariant and
      was judged against that token's answer; a game whose answer cannot be
      compared never gets an attempt. */
  ghost predicate Tracks(session: Session, codec: Codec, fingerprint: string -> GameId, token: string) {
    fingerprint(token) in session && LoadGame(codec, token).Success? ==>
      && Consistent(session[fingerprint(token)])
      && match AnswerText(codec, token)
         case Some(answer) => JudgedAgainst(session[fingerprint(token)], answer)
         case None => session[fingerprint(token)].attempts == []
  }

  /** Any request keeps a game's record consistent: a request for the same
      token runs one guess against that token's answer, and a request for a
      token with a different fingerprint leaves the record alone. (Two tokens
      with the same `md5` would share one record; that case is excluded.) */
  lemma HandleKeepsTracking(codec: Codec, fingerprint: string -> GameId, now: string, session: Session, req: Request, token: string)
    requires Tracks(session, codec, fingerprint, token)
    requires req.data.None? || req.data.value == token || fingerprint(req.data.value) != fingerprint(token)
    ensures Tracks(Handle(codec, fingerprint, now, session, req).session, codec, fingerprint, token)
  {
    if req.data.Some? && req.data.value == token && LoadGame(codec, token).Success? {
      var id := fingerprint(token);
      var st := Init(session, id)[id];
      if AnswerText(codec, token).Some? {
        SubmitGuessKeepsInvariant(st, req.userAnswer, AnswerText(codec, token).value, now);
      }
    }
  }

  /** After a reset, the next view of the same game starts over from `Fresh`. */
  lemma ReloadAfterReset(codec: Codec, fingerprint: string -> GameId, now: string, later: string,
                         session: Session, token: string, guess: Option<string>)
    requires LoadGame(codec, token).Success?
    requires Handle(codec, fingerprint, now, session, Request(Some(token), guess, true)).page == Redirect
    ensures
      var after := Handle(codec, fingerprint, now, session, Request(Some(token), guess, true)).session;
      Handle(codec, fingerprint, later, after, Request(Some(token), None, false))
        == Response(after[fingerprint(token) := Fresh], GamePage(LoadGame(codec, token).value.clue, Fresh, false))
  {
  }

  /** A posted "0" with any whitespace PHP strips around it is ignored like
      an empty guess: nothing is recorded, whatever the game's state. */
  lemma PaddedZeroIgnored(st: GameState, pre: string, post: string, answer: string, now: string)
    requires AllSpace(Php, pre) && AllSpace(Php, post)
    ensures IsEmpty(PostedGuess(Some(pre + "0" + post)))
    ensures SubmitGuess(st, Some(pre + "0" + post), answer, now) == st
  {
    TrimUnique(Php, pre, "0", post);
  }

  /** On a game's first view, submitting its stored answer (already trimmed
      and not `empty()`) solves it with a single correct attempt. */
  lemma FirstGuessOfAnswerSolves(codec: Codec, fingerprint: string -> GameId, now: string,
                                 session: Session, token: string, clue: string, answer: string)
    requires LoadGame(codec, token) == Success(Game(clue, JString(answer)))
    requires Trim(Php, answer) == answer && !IsEmpty(answer)
    requires fingerprint(token) !in session
    ensures
      var solved := GameState([Attempt(answer, true, now)], true);
      Handle(codec, fingerprint, now, session, Request(Some(token), Some(answer), false))
        == Response(session[fingerprint(token) := solved], GamePage(clue, solved, true))
  {
    assert PostedGuess(Some(answer)) == answer;
    assert Records(Fresh, Some(answer));
    assert EqualsIgnoreCase(answer, answer);
    var r := SubmitGuess(Fresh, Some(answer), answer, now);
    assert r.attempts == [Attempt(answer, true, now)];
  }
}
