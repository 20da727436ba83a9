# Clue guessing game: a Dafny model of its game logic

The system is a small web guessing game in two pages. On the authoring page
(`admin.php`, JavaScript), an author fills in a clue and an answer. The author
can also add a definition, the fodder and any number of indicators. The page
builds a JSON object from these inputs. It serialises the object with
`JSON.stringify` and base64-encodes it with `btoa` into a `data` URL parameter,
called the token.

The game page (`index.php`, PHP) decodes the token and checks that `clue` and
`answer` are present. It keeps one record per game in the player's session,
`gameId -> {attempts, solved}`. It records each guess as an attempt, marks the
game solved on a correct guess, and can reset the record.

The model has seven modules, one file each:

- `Wrappers` (`wrappers.dfy`): `Option` and `Result`.
- `Whitespace` (`whitespace.dfy`): trimming. PHP `trim` strips space, tab,
  line feed, carriage return, NUL and vertical tab. JavaScript's `trim` strips
  the ECMA-262 WhiteSpace and LineTerminator code points, listed explicitly.
  One `Trim` function takes the runtime as a parameter.
- `PhpStrings` (`phpstrings.dfy`): PHP `empty()` on a string, which is true
  for both "" and "0". It also has `strcasecmp` with PHP 8.2's ASCII-only case
  folding.
- `Payload` (`payload.dfy`): the decoded JSON value and the codec.
  - The codec is an opaque encode/decode pair. Its round-trip law is the one
    assumption made about it (`RoundTrips`).
  - `isset` on a decoded payload.
  - PHP's conversion of a JSON value to a string parameter.
- `Authoring` (`authoring.dfy`): `addIndicatorField` and `generateGame`, plus
  the JSON object the page serialises.
- `Tracker` (`tracker.dfy`): the request handler at `index.php` lines 117-177.
  It covers payload validation, lazy creation of the game's record, guess
  handling, the solved flag and reset. It also holds the invariants these
  keep over a run of requests.
- `Sharing` (`sharing.dfy`): what holds when a game built by the authoring
  page is played on the game page.

Things the caller supplies as parameters:

- The game id: the page uses `md5` of the token; the model takes a
  `fingerprint` function.
- The attempt time: the page uses `date('H:i:s')`; the model takes a string
  `now`.

A consequence of the code as written, proved in `Sharing.ZeroAnswerUnwinnable`:

- The authoring page accepts the answer "0", because a non-empty string is
  truthy in JavaScript.
- The game page treats the guess "0" as no guess at all, because of PHP's
  `empty()`.
- The only guess equal to "0" ignoring case is "0" itself, so such a game can
  never be solved.

The same holds for a stored answer that starts or ends with NUL
(`Sharing.NulNeverSolvedFrom`), which the authoring page stores for an input
typed with a leading NUL (`Sharing.NulAnswerUnwinnable`). JavaScript's
`trim` keeps NUL, but PHP's `trim` strips it from every guess. The model keeps
both behaviours, as the code has them.

Further behaviour of the code that the model keeps:

- There is no hint reveal, answer reveal or "solved by reveal" state.
- Only the guess is trimmed on the game page. The stored answer is compared as
  decoded; only the authoring page has trimmed it.
- An empty guess, and the guess "0", are ignored silently
  (`Tracker.PaddedZeroIgnored`).
- There are three error messages. A JSON `null` counts as invalid JSON. A clue
  or answer that is an array or object raises a PHP `TypeError`, which
  `catch (Exception)` does not catch; the model shows this as the `Fatal` page.

## Model

| member | source | states |
|---|---|---|
| Whitespace.Trim | index.php:153 | The trimmed text neither starts nor ends with a character the runtime strips, is no longer than the input, and is empty exactly when the input is all whitespace |
| Whitespace.TrimUnique | admin.php:247-250 | Trimming `pre + core + post`, with whitespace-only `pre` and `post` and a core that is tight (neither starts nor ends with whitespace), gives exactly `core`: trimming removes the surrounding whitespace and nothing else |
| Whitespace.TrimIdempotent | index.php:153 | A general property of `trim`, for both runtimes: trimming an already trimmed value changes nothing |
| Whitespace.PhpSpaceBeyondJs | index.php:153 | NUL is the only character PHP's `trim` strips that JavaScript's `trim` keeps |
| Whitespace.SkipForwardStops | index.php:153 | The forward whitespace scan stops exactly at the first non-whitespace position |
| PhpStrings.Strcasecmp | index.php:158 | `strcasecmp` returns -1, 0 or 1, and returns 0 exactly when the strings have equal length and agree at every position after ASCII case folding |
| PhpStrings.StrcasecmpAntisymmetric | index.php:158 | Swapping the arguments of `strcasecmp` negates its result |
| PhpStrings.OnlyZeroMatchesZero | index.php:154-158 | The only guess that equals "0" ignoring ASCII case is "0" itself |
| Authoring.AddIndicatorField | admin.php:232-243 | Adding an indicator field adds exactly one empty input numbered one past the old count, keeps the existing inputs, and keeps the numbering 1..n consecutive |
| Authoring.IndicatorFieldsUnbounded | admin.php:232-243 | Starting from the page's three inputs, after k additions there are 3 + k inputs numbered 1..3 + k, all empty, for every k: there is no upper limit |
| Authoring.KeepNonEmpty | admin.php:253-260 | The collected indicator list is no longer than the inputs and has no empty element, and it is empty exactly when every trimmed value is empty |
| Authoring.KeepIsOrderedFilter | admin.php:253-260 | The collected list is exactly the values at the non-empty positions, in increasing position order: the in-order subsequence of the non-empty trimmed values |
| Authoring.PositionsComplete | admin.php:256-258 | Every non-empty trimmed indicator value has its position among the kept positions, so none is lost |
| Authoring.PositionsIncrease | admin.php:255 | The kept positions are strictly increasing, so relative order is preserved and nothing is duplicated |
| Authoring.KeepAppend | admin.php:255-259 | Collecting from two runs of inputs gives the first run's list followed by the second's |
| Authoring.GenerateGame | admin.php:245-283 | No game is built exactly when the trimmed clue or trimmed answer is empty. A built game's clue and answer are the trimmed inputs. `definition` and `fodder` are present exactly when their trimmed input is non-empty, and then equal it. `indicators` is present exactly when some trimmed indicator input is non-empty, and then is the collected list |
| Authoring.GeneratedIsWellFormed | admin.php:263-283 | Every built game has a non-empty tight clue and answer, non-empty tight optional strings, and a non-empty indicator list without empty entries |
| Authoring.ToJson | admin.php:269-283 | The serialised object always has `clue` and `answer`, has each optional key exactly when that field is present, and has no keys other than clue, answer, definition, fodder and indicators |
| Tracker.LoadGame | index.php:117-139 | A token is accepted exactly when it decodes, is not JSON null, has a non-null `clue` and `answer`, and its clue converts to a string. Decode failures map to the page's two messages. A missing field gives "Missing required fields". A clue that is an array or object, in an otherwise valid payload, gives the fatal outcome and nothing else does. The accepted answer is the decoded value, untrimmed |
| Tracker.Init | index.php:141-148 | A game id absent from the session gets `{attempts: [], solved: false}`. An existing record is left unchanged, and no other id is affected |
| Tracker.SubmitGuess | index.php:152-170 | An empty guess ("" or "0" after PHP trim), or a guess on a solved game, changes nothing. Otherwise exactly one attempt is appended after the unchanged earlier ones. It holds the trimmed guess and is correct exactly when the guess equals the stored answer ignoring ASCII case. The game becomes solved exactly when that attempt is correct, and `solved` never goes back to false |
| Tracker.Reset | index.php:173-174 | Reset removes this game's record and keeps every other record unchanged |
| Tracker.Handle | index.php:117-177 | Without `data` nothing changes and the instructions are shown. A payload that fails to load leaves the session exactly as it was. It shows the matching error message (bad encoding, invalid JSON, missing clue or answer), or the fatal page when the clue is an array or object. Otherwise the game's record, or a fresh one if there was none, goes through the guess handling, and the page shows the clue and the resulting record. After a successful load, the page is fatal exactly when a non-empty guess is submitted to an unsolved game whose answer is an array or object; a plain view of such a game renders normally. The guess is not recorded, and the session is left as it is after the game's record is created, if the record was missing. A reset request deletes the game's record and redirects. Records of other game ids are never touched |
| Tracker.SubmitGuessKeepsInvariant | index.php:157-170 | One guess keeps the invariant: solved iff the last attempt is correct, no earlier attempt is correct, and every attempt was judged against the answer |
| Tracker.ReplayKeepsInvariant | index.php:157-170 | Over any run of guesses, the invariant holds. Attempts are only appended, at most one per request. A solved game stays exactly as it was. From a fresh state, this means solved iff the last attempt is correct, with at most one correct attempt |
| Tracker.HandleKeepsTracking | index.php:141-177 | Any request, for this token or for one with another game id, keeps this game's record consistent and judged against this token's answer |
| Tracker.ReloadAfterReset | index.php:143-176 | After a reset, the next view of the same token recreates a fresh record and shows it |
| Tracker.FirstGuessOfAnswerSolves | index.php:153-169 | On a game's first view, submitting the (trimmed, non-empty) stored answer solves it with a single correct attempt |
| Sharing.AuthoredGameLoads | index.php:120-139 | Given a round-tripping codec, every game the authoring page builds is accepted by the game page, with the author's clue and answer |
| Sharing.JsTightIsPhpTight | index.php:153 | A value trimmed by the authoring page is unchanged by PHP `trim` unless it starts or ends with NUL |
| Sharing.AuthoredAnswerSolves | index.php:153-169 | Submitting the stored answer (the author's input after JavaScript `trim`) solves the game in one attempt on first view, unless that answer is "0" or starts or ends with NUL |
| Sharing.ZeroNeverMatches | index.php:154-168 | Against the answer "0", no guess is ever both recorded and correct |
| Sharing.ZeroAnswerUnwinnable | index.php:154 | The authoring page accepts the answer "0", and no run of guesses ever solves that game |
| Sharing.NulNeverMatches | index.php:153-168 | Against an answer that starts or ends with NUL, no guess is ever both recorded and correct, because PHP `trim` strips NUL from both ends of every guess |
| Sharing.NulAnswerUnwinnable | index.php:153-168 | The authoring page accepts an answer typed with a leading NUL, which JavaScript `trim` keeps, and no run of guesses ever solves that game |
| Payload.IsSet | index.php:134 | Definition, checked by reading: `isset` on a payload key holds exactly when the payload is an object that binds the key to a value other than null |
| Payload.PhpString | index.php:138 | Definition, checked by reading: conversion to a string parameter fails (a TypeError) exactly for arrays and objects. A string is passed as is, a number as its text, `true` as "1", and `false` and null as "" |
| PhpStrings.IsEmpty | index.php:154 | Definition, checked by reading: `empty()` on a string holds exactly for the empty string and the one-character string "0" |
| Tracker.PaddedZeroIgnored | index.php:153-157 | A posted "0" surrounded by any whitespace PHP `trim` strips is `empty()` after trimming, so no attempt is recorded and the record is unchanged |

## Left out

- HTML rendering is not modelled. This covers `htmlspecialchars` and `escapeHtml` escaping (the clue is kept unescaped), the preview, the attempt list and the messages. The one exception: the game page's `showResult` flag is carried in `GamePage`.
- DOM plumbing is not modelled: `copyToClipboard`, `openGame`, `clearForm`, `loadExample` and `window.onload`. It is presentation.
- Assembly of the shareable URL (admin.php lines 291-296) is not modelled; it is presentation.
- `JSON.stringify`, `btoa`, `base64_decode` and `json_decode` are library code. They are an opaque codec with an assumed round trip. Three things that break that assumption in practice are not modelled:
  - `btoa` throws on characters above U+00FF.
  - PHP's `json_decode` expects UTF-8, but `btoa` encodes Latin-1.
  - A `+` in the unescaped token reads as a space in `$_GET`.
- JSON key order is not modelled, because objects are maps.
- A JSON number is carried as the text PHP converts it to. Its numeric value is not modelled.
- `md5` is the `fingerprint` parameter. Two tokens with the same fingerprint would share one record. `Tracker.HandleKeepsTracking` excludes that case.
- `date('H:i:s')` is the `now` parameter.
- `session_start`, the `header()` redirect and `exit` are I/O.
- After the uncaught `TypeError` on a non-scalar answer, the session is taken to be written with the record already created.
- A `user_answer` posted as an array is not modelled. PHP's `trim` would raise a `TypeError` on it.
- A `data` parameter passed as an array (`?data[]=x`) is not modelled: `Request.data` is a string. PHP's `base64_decode` would raise an uncaught `TypeError` on it, so the page would be fatal.
- PHP strings are byte strings, while the model's strings are sequences of Unicode scalar values. A posted guess that is not valid UTF-8 cannot be represented. `trim` and `strcasecmp` on bytes agree with the model's character-level versions only for valid UTF-8.
- Hint reveal, answer reveal and "solved by reveal" do not exist in the code, so they are not modelled.
- `strcasecmp` is modelled as in PHP 8.2 and later. Earlier PHP versions fold case by locale.
