/** The event prompt that runs before any scraping (nbv2.py:427-442): the
    operator is shown the numbered list of events and asked for a number until
    one parses with `int()` and lies in `1..len(events_list)`. */
module EventPrompt {
  import opened Wrappers
  import opened PyText

  /** `events_list` (nbv2.py:72-84). */
  const EventsList: seq<string> := [
    "Brak Eventu",
    "Ulepszenie Ekwipunku",
    "Podwójny Drop",
    "Podwójne Doświadczenie",
    "Ulepszanie Karty Specjalisty",
    "Podwójne Pudełka Rajdu",
    "Podwójne złoto",
    "Ulepszanie Run",
    "Ulepszanie Tatuaży",
    "Ulepszanie Kart Specjalisty Partnera",
    "Podwójne Błyskawiczne Bitwy"
  ]

  /** The prompt's outcome: the accepted number and the event it names, or
      the end of standard input, where `input()` raises `EOFError`, which
      nothing catches. */
  datatype Selection = Chosen(index: int, event: string) | InputExhausted

  /** A reading the loop accepts: `int()` succeeded and the value is in range. */
  predicate InRange(events: seq<string>, reading: Option<int>) {
    reading.Some? && 0 < reading.value <= |events|
  }

  /** An answer the loop accepts. */
  predicate Accepts(events: seq<string>, answer: string) {
    InRange(events, ParseInt(answer))
  }

  /** What `int()` makes of each answer, in order. */
  function Readings(answers: seq<string>): (r: seq<Option<int>>)
    ensures |r| == |answers|
  {
    if |answers| == 0 then [] else [ParseInt(answers[0])] + Readings(answers[1..])
  }

  lemma {:induction false} ReadingAt(answers: seq<string>, k: int)
    requires 0 <= k < |answers|
    ensures Readings(answers)[k] == ParseInt(answers[k])
  {
    if k > 0 {
      ReadingAt(answers[1..], k - 1);
    }
  }

  /** Reference: the prompt goes through the readings in order and stops at
      the first one in range. */
  function Choose(events: seq<string>, readings: seq<Option<int>>): Selection
    decreases |readings|
  {
    if |readings| == 0 then InputExhausted
    else if InRange(events, readings[0]) then
      Chosen(readings[0].value, events[readings[0].value - 1])
    else Choose(events, readings[1..])
  }

  /** Reference: the prompt takes the answers in order and stops at the first
      one it accepts. */
  function Select(events: seq<string>, answers: seq<string>): Selection {
    Choose(events, Readings(answers))
  }

  /** The prompt loop over the operator's answers, in order. */
  method SelectEvent(events: seq<string>, answers: seq<string>) returns (selection: Selection)
    ensures selection == Select(events, answers)
  {
    ghost var readings := Readings(answers);
    var selectedIndex: int := -1;
    var next: nat := 0;
    while !(0 < selectedIndex <= |events|)
      invariant next <= |answers|
      invariant 0 < selectedIndex <= |events| ==>
        0 < next && Choose(events, readings[next - 1..]) == Chosen(selectedIndex, events[selectedIndex - 1])
      invariant Select(events, answers) == Choose(events, readings[if 0 < selectedIndex <= |events| then next - 1 else next..])
      decreases |answers| - next, if 0 < selectedIndex <= |events| then 0 else 1
    {
      if next == |answers| {
        // input() raises EOFError
        return InputExhausted;
      }
      var answer := answers[next];
      next := next + 1;
      match ParseInt(answer) {
        case Some(v) =>
          selectedIndex := v;
          // an out-of-range number is reported and the operator asked again
        case None =>
          // ValueError: reported and the operator asked again
      }
      ReadingAt(answers, next - 1);
      assert readings[next - 1..][1..] == readings[next..];
    }
    selection := Chosen(selectedIndex, events[selectedIndex - 1]);
  }

  /** Over the readings: a choice is made exactly when some reading is in
      range. */
  lemma {:induction false} ChooseChosenIff(events: seq<string>, readings: seq<Option<int>>)
    ensures Choose(events, readings).Chosen? <==> exists k :: 0 <= k < |readings| && InRange(events, readings[k])
    decreases |readings|
  {
    if |readings| > 0 && !InRange(events, readings[0]) {
      var rest := readings[1..];
      ChooseChosenIff(events, rest);
      if exists k :: 0 <= k < |readings| && InRange(events, readings[k]) {
        var k :| 0 <= k < |readings| && InRange(events, readings[k]);
        assert k > 0 && readings[k] == rest[k - 1];
      }
      if exists k :: 0 <= k < |rest| && InRange(events, rest[k]) {
        var k :| 0 <= k < |rest| && InRange(events, rest[k]);
        assert readings[k + 1] == rest[k];
      }
    }
  }

  /** Over the readings: a choice is the first reading in range and the
      event it numbers. */
  lemma {:induction false} ChooseFirst(events: seq<string>, readings: seq<Option<int>>)
    ensures Choose(events, readings).Chosen? ==>
      var c := Choose(events, readings);
      && 1 <= c.index <= |events|
      && c.event == events[c.index - 1]
      && exists k :: 0 <= k < |readings| && readings[k] == Some(c.index)
                     && forall j :: 0 <= j < k ==> !InRange(events, readings[j])
    decreases |readings|
  {
    if |readings| > 0 && !InRange(events, readings[0]) {
      var rest := readings[1..];
      ChooseFirst(events, rest);
      if Choose(events, readings).Chosen? {
        var c := Choose(events, rest);
        var k :| 0 <= k < |rest| && rest[k] == Some(c.index)
                 && forall j :: 0 <= j < k ==> !InRange(events, rest[j]);
        assert forall j :: 0 <= j < k + 1 ==> !InRange(events, readings[j]) by {
          forall j | 0 <= j < k + 1
            ensures !InRange(events, readings[j])
          {
            if j > 0 {
              assert readings[j] == rest[j - 1];
            }
          }
        }
        assert readings[k + 1] == Some(c.index);
      }
    }
  }

  /** The prompt ends with a choice exactly when some answer is accepted. */
  lemma SelectChosenIff(events: seq<string>, answers: seq<string>)
    ensures Select(events, answers).Chosen? <==> exists k :: 0 <= k < |answers| && Accepts(events, answers[k])
  {
    var readings := Readings(answers);
    assert Select(events, answers) == Choose(events, readings);
    ChooseChosenIff(events, readings);
    if exists k :: 0 <= k < |readings| && InRange(events, readings[k]) {
      var k :| 0 <= k < |readings| && InRange(events, readings[k]);
      ReadingAt(answers, k);
      assert Accepts(events, answers[k]);
    }
    if exists k :: 0 <= k < |answers| && Accepts(events, answers[k]) {
      var k :| 0 <= k < |answers| && Accepts(events, answers[k]);
      ReadingAt(answers, k);
    }
  }

  /** A choice is a number in `1..len(events)` naming `events[number - 1]`,
      read from the first accepted answer, every earlier answer having been
      rejected. */
  lemma SelectChoice(events: seq<string>, answers: seq<string>)
    requires Select(events, answers).Chosen?
    ensures var c := Select(events, answers);
      && 1 <= c.index <= |events|
      && c.event == events[c.index - 1]
      && exists k :: 0 <= k < |answers| && ParseInt(answers[k]) == Some(c.index)
                     && forall j :: 0 <= j < k ==> !Accepts(events, answers[j])
  {
    var readings := Readings(answers);
    var c := Choose(events, readings);
    assert Select(events, answers) == c;
    ChooseFirst(events, readings);
    var k :| 0 <= k < |readings| && readings[k] == Some(c.index)
             && forall j :: 0 <= j < k ==> !InRange(events, readings[j]);
    ReadingAt(answers, k);
    forall j | 0 <= j < k
      ensures !Accepts(events, answers[j])
    {
      ReadingAt(answers, j);
    }
    assert ParseInt(answers[k]) == Some(c.index);
  }

  /** A word, then 0, then 7 selects the seventh event of any list of at
      least seven, such as the program's own list of eleven. */
  lemma WordZeroSeven(events: seq<string>)
    requires |events| >= 7
    ensures Select(events, ["abc", "0", "7"]) == Chosen(7, events[6])
  {
    var answers := ["abc", "0", "7"];
    var readings := [None, Some(0), Some(7)];
    assert Readings(answers) == readings by {
      WordRejected();
      ParsesAs("0", 0);
      ParsesAs("7", 7);
    }
    assert readings[1..] == [Some(0), Some(7)] && readings[1..][1..] == [Some(7)];
    assert Choose(events, [Some(7)]) == Chosen(7, events[6]);
    assert Choose(events, [Some(0), Some(7)]) == Choose(events, [Some(7)]);
  }

  lemma WordRejected()
    ensures ParseInt("abc") == None
  {
    if ParseInt("abc").Some? {
      ParseIntAlphabet("abc", 0);
    }
  }

  /** An answer led by U+001C is rejected: `int()` does not skip it. */
  lemma SeparatorRejected(events: seq<string>)
    ensures ParseInt("\U{1c}7") == None
    ensures Select(events, ["\U{1c}7"]) == InputExhausted
  {
    if ParseInt("\U{1c}7").Some? {
      ParseIntAlphabet("\U{1c}7", 0);
    }
    var answers := ["\U{1c}7"];
    assert Readings(answers) == [None] by {
      assert answers[1..] == [];
    }
    var readings: seq<Option<int>> := [None];
    assert readings[1..] == [];
  }

  lemma ParsesAs(d: string, n: nat)
    requires n < 10 && d == [DigitChar(n)]
    ensures ParseInt(d) == Some(n)
  {
    ParseAllDigits(d);
  }

  /** The same answers against the program's own list. */
  lemma WordZeroSevenOnEventsList()
    ensures Select(EventsList, ["abc", "0", "7"]) == Chosen(7, EventsList[6])
  {
    WordZeroSeven(EventsList);
  }
}
