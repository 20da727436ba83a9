/** The authoring page: the indicator inputs the author can add, and the
    builder that turns the form into the game's JSON object. */
module Authoring {
  import opened Wrappers
  import opened Whitespace
  import opened Payload

  /** One `<input id="indicatorN">` of the indicator group, in document order. */
  datatype IndicatorInput = IndicatorInput(number: nat, value: string)

  /** The raw values of the authoring form. */
  datatype Form = Form(
    clue: string,
    answer: string,
    definition: string,
    fodder: string,
    indicators: seq<IndicatorInput>)

  /** The game object the page serialises; an absent field is an omitted key. */
  datatype GameData = GameData(
    clue: string,
    answer: string,
    definition: Option<string>,
    fodder: Option<string>,
    indicators: Option<seq<string>>)

  /** The one reason the page refuses to build a game (it alerts and stops). */
  datatype ValidationError = MissingClueOrAnswer

  function JsTrim(s: string): string {
    Trim(JavaScript, s)
  }

  /** The indicator inputs carry the numbers 1, 2, 3, ... in document order. */
  predicate Numbered(group: seq<IndicatorInput>) {
    forall i :: 0 <= i < |group| ==> group[i].number == i + 1
  }

  /** The page starts with three empty indicator inputs. */
  const InitialIndicators: seq<IndicatorInput> :=
    [IndicatorInput(1, ""), IndicatorInput(2, ""), IndicatorInput(3, "")]

  /** "+ Add Indicator": appends one empty input numbered one past the
      current count; the existing inputs stay as they are. */
  function AddIndicatorField(group: seq<IndicatorInput>): (r: seq<IndicatorInput>)
    ensures |r| == |group| + 1
    ensures r[..|group|] == group
    ensures r[|group|].number == |group| + 1 && r[|group|].value == ""
    ensures Numbered(group) ==> Numbered(r)
  {
    group + [IndicatorInput(|group| + 1, "")]
  }

  /** The group after the author presses "+ Add Indicator" `k` times. */
  function AddIndicatorFields(group: seq<IndicatorInput>, k: nat): seq<IndicatorInput> {
    if k == 0 then group else AddIndicatorField(AddIndicatorFields(group, k - 1))
  }

  /** There is no upper limit: after `k` additions the form has `3 + k`
      indicator inputs, still numbered 1 to `3 + k`, all of them empty. */
  lemma {:induction false} IndicatorFieldsUnbounded(k: nat)
    ensures |AddIndicatorFields(InitialIndicators, k)| == 3 + k
    ensures Numbered(AddIndicatorFields(InitialIndicators, k))
    ensures forall i :: 0 <= i < 3 + k ==> AddIndicatorFields(InitialIndicators, k)[i].value == ""
  {
    if k > 0 {
      IndicatorFieldsUnbounded(k - 1);
    }
  }

  /** Every indicator input's value, trimmed, in document order. */
  function TrimmedValues(inputs: seq<IndicatorInput>): (vals: seq<string>)
    ensures |vals| == |inputs|
    ensures forall i :: 0 <= i < |inputs| ==> vals[i] == JsTrim(inputs[i].value)
  {
    seq(|inputs|, i requires 0 <= i < |inputs| => JsTrim(inputs[i].value))
  }

  /** The push loop: each value is appended when non-empty, so what is kept
      stays in document order. No kept value is empty, and nothing is kept
      only when every value is empty; `KeepIsOrderedFilter` states which
      values are kept. */
  function KeepNonEmpty(vals: seq<string>): (r: seq<string>)
    ensures |r| <= |vals|
    ensures forall k :: 0 <= k < |r| ==> r[k] != ""
    ensures |r| == 0 <==> forall i :: 0 <= i < |vals| ==> vals[i] == ""
  {
    if |vals| == 0 then []
    else
      var n := |vals| - 1;
      var kept := KeepNonEmpty(vals[..n]);
      assert forall i :: 0 <= i < n ==> vals[..n][i] == vals[i];
      if vals[n] != "" then kept + [vals[n]] else kept
  }

  /** `generateGame`'s indicator list: the trimmed values that are not empty. */
  function CollectIndicators(inputs: seq<IndicatorInput>): seq<string> {
    KeepNonEmpty(TrimmedValues(inputs))
  }

  /** Reference for the filter: the positions of the non-empty values, in
      increasing order. */
  function NonEmptyPositions(vals: seq<string>): (idx: seq<nat>)
    ensures forall k :: 0 <= k < |idx| ==> idx[k] < |vals|
    ensures forall k :: 0 < k < |idx| ==> idx[k - 1] < idx[k]
    ensures forall k :: 0 <= k < |idx| ==> vals[idx[k]] != ""
  {
    if |vals| == 0 then []
    else
      var n := |vals| - 1;
      var earlier := NonEmptyPositions(vals[..n]);
      assert forall k :: 0 <= k < |earlier| ==> vals[..n][earlier[k]] == vals[earlier[k]];
      if vals[n] != "" then earlier + [n] else earlier
  }

  /** Every non-empty value's position is listed. */
  lemma {:induction false} PositionsComplete(vals: seq<string>, i: nat)
    requires i < |vals| && vals[i] != ""
    ensures i in NonEmptyPositions(vals)
  {
    var n := |vals| - 1;
    if i < n {
      assert vals[..n][i] == vals[i];
      PositionsComplete(vals[..n], i);
    }
  }

  /** The positions are strictly increasing, so each occurs once. */
  lemma {:induction false} PositionsIncrease(vals: seq<string>)
    ensures forall k, l :: 0 <= k < l < |NonEmptyPositions(vals)| ==>
      NonEmptyPositions(vals)[k] < NonEmptyPositions(vals)[l]
  {
    if |vals| > 0 {
      PositionsIncrease(vals[..|vals| - 1]);
    }
  }

  /** The kept list is exactly the values at the non-empty positions, in
      their original order: nothing empty survives, nothing non-empty is
      lost, and nothing is reordered. */
  lemma {:induction false} KeepIsOrderedFilter(vals: seq<string>)
    ensures |KeepNonEmpty(vals)| == |NonEmptyPositions(vals)|
    ensures forall k :: 0 <= k < |NonEmptyPositions(vals)| ==>
      KeepNonEmpty(vals)[k] == vals[NonEmptyPositions(vals)[k]]
  {
    if |vals| > 0 {
      var n := |vals| - 1;
      var front := vals[..n];
      KeepIsOrderedFilter(front);
      var c, idx := KeepNonEmpty(front), NonEmptyPositions(front);
      var c', idx' := KeepNonEmpty(vals), NonEmptyPositions(vals);
      if vals[n] != "" {
        assert c' == c + [vals[n]] && idx' == idx + [n];
      } else {
        assert c' == c && idx' == idx;
      }
      forall k | 0 <= k < |idx'|
        ensures c'[k] == vals[idx'[k]]
      {
        if k < |idx| {
          assert c'[k] == c[k] && idx'[k] == idx[k];
          assert vals[idx[k]] == front[idx[k]];
        }
      }
    }
  }

  /** Filtering two runs of values is filtering each in turn. */
  lemma {:induction false} KeepAppend(a: seq<string>, b: seq<string>)
    ensures KeepNonEmpty(a + b) == KeepNonEmpty(a) + KeepNonEmpty(b)
  {
    if |b| == 0 {
      assert a + b == a;
    } else {
      var n := |b| - 1;
      assert (a + b)[..|a + b| - 1] == a + b[..n];
      KeepAppend(a, b[..n]);
    }
  }

  /** An optional field follows the page's rule: present exactly when the
      trimmed input is non-empty, and then equal to it. */
  predicate KeptIfNonEmpty(field: Option<string>, trimmed: string) {
    (field.Some? <==> trimmed != "") && (field.Some? ==> field.value == trimmed)
  }

  /** `generateGame`: trims every input, refuses the game when the clue or the
      answer is blank, and otherwise builds the object, adding each optional
      field only when there is something to put in it. */
  function GenerateGame(form: Form): (r: Result<GameData, ValidationError>)
    ensures r.Failure? <==> JsTrim(form.clue) == "" || JsTrim(form.answer) == ""
    ensures r.Success? ==> r.value.clue == JsTrim(form.clue) && r.value.answer == JsTrim(form.answer)
    ensures r.Success? ==> KeptIfNonEmpty(r.value.definition, JsTrim(form.definition))
    ensures r.Success? ==> KeptIfNonEmpty(r.value.fodder, JsTrim(form.fodder))
    ensures r.Success? ==>
      (r.value.indicators.Some? <==>
        exists i :: 0 <= i < |form.indicators| && JsTrim(form.indicators[i].value) != "")
    ensures r.Success? && r.value.indicators.Some? ==>
      r.value.indicators.value == CollectIndicators(form.indicators)
  {
    var clue := JsTrim(form.clue);
    var answer := JsTrim(form.answer);
    var definition := JsTrim(form.definition);
    var fodder := JsTrim(form.fodder);
    var indicators := CollectIndicators(form.indicators);
    assert |indicators| > 0 <==> exists i :: 0 <= i < |form.indicators| && JsTrim(form.indicators[i].value) != "" by {
      var vals := TrimmedValues(form.indicators);
      if |indicators| > 0 {
        var i :| 0 <= i < |vals| && vals[i] != "";
        assert JsTrim(form.indicators[i].value) != "";
      }
    }
    if clue == "" || answer == "" then
      Failure(MissingClueOrAnswer)
    else
      Success(GameData(
        clue,
        answer,
        if definition != "" then Some(definition) else None,
        if fodder != "" then Some(fodder) else None,
        if |indicators| > 0 then Some(indicators) else None))
  }

  /** What every built game satisfies: clue and answer non-empty and tight,
      optional strings non-empty and tight, an indicator list non-empty and
      free of blank entries. */
  predicate WellFormed(g: GameData) {
    && g.clue != "" && Tight(JavaScript, g.clue)
    && g.answer != "" && Tight(JavaScript, g.answer)
    && (g.definition.Some? ==> g.definition.value != "" && Tight(JavaScript, g.definition.value))
    && (g.fodder.Some? ==> g.fodder.value != "" && Tight(JavaScript, g.fodder.value))
    && (g.indicators.Some? ==>
          |g.indicators.value| > 0 &&
          forall k :: 0 <= k < |g.indicators.value| ==> g.indicators.value[k] != "")
  }

  /** Every game the page builds is well formed. */
  lemma GeneratedIsWellFormed(form: Form)
    requires GenerateGame(form).Success?
    ensures WellFormed(GenerateGame(form).value)
  {
  }

  /** The keys `generateGame` can ever put in the object. */
  const GameKeys: set<string> := {"clue", "answer", "definition", "fodder", "indicators"}

  /** The JSON object handed to `JSON.stringify`: `clue` and `answer` always,
      each optional key only when the field is present, and no other key. */
  function ToJson(g: GameData): (j: Json)
    ensures j.JObject?
    ensures j.fields.Keys <= GameKeys
    ensures "clue" in j.fields && j.fields["clue"] == JString(g.clue)
    ensures "answer" in j.fields && j.fields["answer"] == JString(g.answer)
    ensures "definition" in j.fields <==> g.definition.Some?
    ensures "fodder" in j.fields <==> g.fodder.Some?
    ensures "indicators" in j.fields <==> g.indicators.Some?
    ensures g.definition.Some? ==> j.fields["definition"] == JString(g.definition.value)
    ensures g.fodder.Some? ==> j.fields["fodder"] == JString(g.fodder.value)
    ensures g.indicators.Some? ==>
      j.fields["indicators"] == JArray(seq(|g.indicators.value|, k requires 0 <= k < |g.indicators.value| => JString(g.indicators.value[k])))
  {
    var base := map["clue" := JString(g.clue), "answer" := JString(g.answer)];
    var withDefinition := if g.definition.Some? then base["definition" := JString(g.definition.value)] else base;
    var withFodder := if g.fodder.Some? then withDefinition["fodder" := JString(g.fodder.value)] else withDefinition;
    var withIndicators :=
      if g.indicators.Some? then
        withFodder["indicators" := JArray(seq(|g.indicators.value|, k requires 0 <= k < |g.indicators.value| => JString(g.indicators.value[k])))]
      else withFodder;
    JObject(withIndicators)
  }
}
