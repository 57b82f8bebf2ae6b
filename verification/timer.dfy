/** The client's turn timer and letter reveal
    (client/src/components/Timer.js), together with the server's draw-time
    countdown that drives its ticks (`startDrawtimeCountdown` in
    server/server.js). The word is shown as a mask with one
    slot per character: a space stays a space, every other character is
    hidden as `___`, and on some ticks one hidden character is revealed as
    ` c `. The random position comes in as a parameter. */
module RevealTimer {
  import opened Optional
  import opened JsText

  /** `TIME_OFFSET`: final seconds in which no letter is revealed. */
  const TimeOffset: int := 5
  /** `LETTER_OFFSET`: a reveal needs more than this many hidden slots. */
  const LetterOffset: int := 2
  /** The mask slot of a hidden character. */
  const Hidden: string := "___"

  /** The mask slot of a revealed character. */
  function Shown(c: char): string
  {
    [' ', c, ' ']
  }

  /** The initial slot of one character of the word. */
  function Cover(c: char): string
  {
    if c == ' ' then " " else Hidden
  }

  /** `word.split("").map(char => char == " " ? char : "___")`. */
  function InitialMask(word: string): (m: seq<string>)
    ensures |m| == |word|
    ensures forall i :: 0 <= i < |word| ==> (word[i] == ' ' <==> m[i] == " ")
    ensures forall i :: 0 <= i < |word| ==> (word[i] != ' ' <==> m[i] == Hidden)
    decreases |word|
  {
    if |word| == 0 then [] else [Cover(word[0])] + InitialMask(word[1..])
  }

  /** `Math.ceil(n / d)` for a positive divisor. */
  function CeilDiv(n: int, d: int): (q: int)
    requires d > 0
    ensures q * d >= n && (q - 1) * d < n
  {
    var q := (n + d - 1) / d;
    assert q * d + (n + d - 1) % d == n + d - 1;
    q
  }

  /** The reveal interval fixed at game start:
      `Math.ceil((drawtime - TIME_OFFSET) / word.length)`. */
  function RevealInterval(drawtime: int, word: string): (r: int)
    requires |word| > 0
    ensures r * |word| >= drawtime - TimeOffset > (r - 1) * |word|
    ensures drawtime > TimeOffset ==> r >= 1
  {
    CeilDiv(drawtime - TimeOffset, |word|)
  }

  /** `t % interval === 0` in JavaScript: never true for a zero interval
      (the remainder is NaN); otherwise true exactly when the interval
      divides `t`, whatever the signs. */
  predicate Divides(interval: int, t: int)
  {
    interval != 0 && t % interval == 0
  }

  /** A time passes the reveal check exactly when it is a whole multiple of
      a non-zero interval. */
  lemma DividesIsMultiple(interval: int, t: int)
    ensures Divides(interval, t) <==> interval != 0 && exists q :: q * interval == t
  {
    if interval != 0 && exists q :: q * interval == t {
      var q :| q * interval == t;
      MultipleRemainder(q, interval);
    }
    if Divides(interval, t) {
      assert (t / interval) * interval == t;
    }
  }

  /** A positive multiple of a positive number is at least that number. */
  lemma MulAtLeast(x: int, d: int)
    requires x >= 1 && d >= 1
    ensures x * d >= d
  {
  }

  /** A multiple of a non-zero number leaves remainder 0. */
  lemma MultipleRemainder(q: int, d: int)
    requires d != 0
    ensures (q * d) % d == 0
  {
    var m := (q * d) / d;
    var r := (q * d) % d;
    var a := if d > 0 then d else -d;
    assert q * d == m * d + r;
    assert 0 <= r < a;
    var x := q - m;
    assert x * d == q * d - m * d;
    assert x * d == r;
    if x != 0 {
      var ax := if x > 0 then x else -x;
      MulAtLeast(ax, a);
      assert false;
    }
  }

  /** The timer component's state: the word it was given, the mask
      (`revealedLetters`), the positions revealed so far
      (`revealedLetterIndexes`), the reveal interval, and the displayed and
      original times (`undefined` until the game starts). */
  datatype Timer = Timer(word: string, mask: seq<string>, revealed: seq<nat>, interval: int,
                         timeLeft: Option<int>, originalTime: Option<int>)

  datatype TickResult = TickResult(timer: Timer, ended: bool)

  predicate NoDuplicates(xs: seq<nat>)
  {
    forall i, j :: 0 <= i < j < |xs| ==> xs[i] != xs[j]
  }

  /** A slot agrees with its character: spaces stay spaces, and any other
      character is hidden, or shown and recorded as revealed. */
  predicate SlotOk(c: char, slot: string, recorded: bool)
  {
    if c == ' ' then slot == " " else slot == Hidden || (slot == Shown(c) && recorded)
  }

  /** The states the component can reach. */
  predicate Valid(t: Timer)
  {
    && |t.mask| == |t.word|
    && (forall i :: 0 <= i < |t.word| ==> SlotOk(t.word[i], t.mask[i], i in t.revealed))
    && NoDuplicates(t.revealed)
  }

  /** A fresh component for a word: the mask covers it, nothing is revealed
      and the interval ref starts at 0. */
  function Mount(word: string): (t: Timer)
    ensures Valid(t) && t.word == word && t.revealed == [] && t.interval == 0
    ensures t.timeLeft.None? && t.originalTime.None?
  {
    Timer(word, InitialMask(word), [], 0, None, None)
  }

  /** The `[word]` effect: a new word gets a fresh mask. The list of
      revealed positions is a ref and is not reset. */
  function SetWord(t: Timer, word: string): (r: Timer)
    ensures Valid(t) ==> Valid(r)
    ensures r.word == word && r.mask == InitialMask(word) && r.revealed == t.revealed
    ensures r.(word := t.word, mask := t.mask) == t
  {
    t.(word := word, mask := InitialMask(word))
  }

  /** `game_start`: with a non-empty word, the clock is set to the draw time
      and the reveal interval is fixed; with an empty word nothing changes. */
  function GameStart(t: Timer, drawtime: int): (r: Timer)
    ensures |t.word| == 0 ==> r == t
    ensures |t.word| > 0 ==>
              && r.timeLeft == Some(drawtime) && r.originalTime == Some(drawtime)
              && r.interval * |t.word| >= drawtime - TimeOffset > (r.interval - 1) * |t.word|
    ensures r.(timeLeft := t.timeLeft, originalTime := t.originalTime, interval := t.interval) == t
  {
    if |t.word| == 0 then t
    else t.(timeLeft := Some(drawtime), originalTime := Some(drawtime),
            interval := RevealInterval(drawtime, t.word))
  }

  /** The source's hidden-slot count:
      `mask.join(" ").split(" ").filter(l => l === "___").length`. */
  function HiddenSlots(mask: seq<string>): nat
  {
    Count(Split(Join(mask, ' '), ' '), Hidden)
  }

  /** The guard under which a tick reveals the letter at `rand`. */
  predicate RevealsAt(t: Timer, timeLeft: int, rand: nat)
  {
    && timeLeft != 0
    && Divides(t.interval, timeLeft)
    && HiddenSlots(t.mask) > LetterOffset
    && rand < |t.word| && rand < |t.mask|
    && rand !in t.revealed
    && t.mask[rand] != " " && t.word[rand] != ' '
  }

  /** `countdown_tick`. At zero the turn-end callback fires and the clock
      goes back to the original draw time. Otherwise the clock shows the
      time, and when the time is a multiple of the interval and more than
      two slots are hidden, the letter at `rand` is revealed unless it was
      revealed before or is a space. */
  function Tick(t: Timer, timeLeft: int, rand: nat): (r: TickResult)
    requires |t.mask| == |t.word|
    requires rand < |t.word| || (|t.word| == 0 && rand == 0)
    ensures r.ended <==> timeLeft == 0
    ensures r.ended ==> r.timer == t.(timeLeft := t.originalTime)
    ensures !r.ended ==> r.timer.timeLeft == Some(timeLeft)
    ensures RevealsAt(t, timeLeft, rand) ==>
              && r.timer.mask == t.mask[rand := Shown(t.word[rand])]
              && r.timer.revealed == t.revealed + [rand]
    ensures !RevealsAt(t, timeLeft, rand) ==>
              r.timer.mask == t.mask && r.timer.revealed == t.revealed
    ensures r.timer.(timeLeft := t.timeLeft, mask := t.mask, revealed := t.revealed) == t
  {
    if timeLeft == 0 then TickResult(t.(timeLeft := t.originalTime), true)
    else
      var ticked := t.(timeLeft := Some(timeLeft));
      if Divides(t.interval, timeLeft) && HiddenSlots(t.mask) > LetterOffset then
        if rand in t.revealed || t.mask[rand] == " " || t.word[rand] == ' ' then
          TickResult(ticked, false)
        else
          TickResult(ticked.(mask := t.mask[rand := Shown(t.word[rand])],
                             revealed := t.revealed + [rand]), false)
      else TickResult(ticked, false)
  }

  // ---------------------------------------------------------------------
  // The hidden-slot count

  /** The three shapes a mask slot can take. */
  predicate MaskEntry(s: string)
  {
    s == " " || s == Hidden || (|s| == 3 && s[0] == ' ' && s[1] != ' ' && s[2] == ' ')
  }

  lemma EntryHiddenSlots(s: string)
    requires MaskEntry(s)
    ensures Count(Split(s, ' '), Hidden) == if s == Hidden then 1 else 0
  {
    if s == " " {
      assert s[1..] == "";
      assert Split(s, ' ') == ["", ""];
    } else if s == Hidden {
      SplitPlain(s, ' ');
    } else {
      var c := s[1];
      assert s[1..][1..] == [' '];
      assert [' '][1..] == "";
      assert Split([' '], ' ') == ["", ""];
      assert s[1..][0] == c && c != ' ';
      assert [c] + "" == [c];
      assert Split(s[1..], ' ') == [[c], ""];
      assert Split(s, ' ') == ["", [c], ""];
      assert [c] != Hidden;
    }
  }

  lemma {:induction false} SplitEachHiddenSlots(mask: seq<string>)
    requires forall i :: 0 <= i < |mask| ==> MaskEntry(mask[i])
    ensures Count(SplitEach(mask, ' '), Hidden) == Count(mask, Hidden)
    decreases |mask|
  {
    if |mask| > 0 {
      EntryHiddenSlots(mask[0]);
      SplitEachHiddenSlots(mask[1..]);
      CountAppend(Split(mask[0], ' '), SplitEach(mask[1..], ' '), Hidden);
    }
  }

  /** For every mask the component builds, the count the source takes from
      the joined-and-split text equals the number of hidden slots. */
  lemma HiddenSlotsIsCount(mask: seq<string>)
    requires forall i :: 0 <= i < |mask| ==> MaskEntry(mask[i])
    ensures HiddenSlots(mask) == Count(mask, Hidden)
  {
    if |mask| == 0 {
      assert Split("", ' ') == [""];
    } else {
      SplitJoin(mask, ' ');
      SplitEachHiddenSlots(mask);
    }
  }

  lemma ValidEntries(t: Timer)
    requires Valid(t)
    ensures forall i :: 0 <= i < |t.mask| ==> MaskEntry(t.mask[i])
  {
    forall i | 0 <= i < |t.mask| ensures MaskEntry(t.mask[i]) {
      assert SlotOk(t.word[i], t.mask[i], i in t.revealed);
    }
  }

  /** Replacing one slot changes the hidden count by the slots' difference. */
  lemma {:induction false} CountUpdate(xs: seq<string>, i: nat, v: string, w: string)
    requires i < |xs|
    ensures Count(xs[i := v], w) + (if xs[i] == w then 1 else 0)
            == Count(xs, w) + (if v == w then 1 else 0)
    decreases |xs|
  {
    if i > 0 {
      assert xs[i := v][1..] == xs[1..][i - 1 := v];
      CountUpdate(xs[1..], i - 1, v, w);
    } else {
      assert xs[0 := v][1..] == xs[1..];
    }
  }

  // ---------------------------------------------------------------------
  // What the ticks guarantee

  /** In a reachable state a reveal always uncovers a hidden, non-space
      slot that was never revealed before. */
  lemma RevealUncoversHiddenSlot(t: Timer, timeLeft: int, rand: nat)
    requires Valid(t) && RevealsAt(t, timeLeft, rand)
    ensures t.mask[rand] == Hidden && t.word[rand] != ' ' && rand !in t.revealed
  {
    assert SlotOk(t.word[rand], t.mask[rand], rand in t.revealed);
  }

  /** Ticks keep the component in a reachable state. */
  lemma TickPreservesValid(t: Timer, timeLeft: int, rand: nat)
    requires Valid(t)
    requires rand < |t.word| || (|t.word| == 0 && rand == 0)
    ensures Valid(Tick(t, timeLeft, rand).timer)
  {
    var r := Tick(t, timeLeft, rand).timer;
    if RevealsAt(t, timeLeft, rand) {
      forall i | 0 <= i < |r.word| ensures SlotOk(r.word[i], r.mask[i], i in r.revealed) {
        assert SlotOk(t.word[i], t.mask[i], i in t.revealed);
      }
    }
  }

  /** A tick hides nothing and reveals at most one slot, and only while more
      than `LETTER_OFFSET` slots are hidden: so the hidden count never
      drops below `LETTER_OFFSET` through a reveal. */
  lemma RevealKeepsFloor(t: Timer, timeLeft: int, rand: nat)
    requires Valid(t)
    requires rand < |t.word| || (|t.word| == 0 && rand == 0)
    ensures var r := Tick(t, timeLeft, rand).timer;
            || Count(r.mask, Hidden) == Count(t.mask, Hidden)
            || (&& Count(t.mask, Hidden) > LetterOffset
                && Count(r.mask, Hidden) == Count(t.mask, Hidden) - 1
                && Count(r.mask, Hidden) >= LetterOffset)
  {
    if RevealsAt(t, timeLeft, rand) {
      ValidEntries(t);
      HiddenSlotsIsCount(t.mask);
      RevealUncoversHiddenSlot(t, timeLeft, rand);
      CountUpdate(t.mask, rand, Shown(t.word[rand]), Hidden);
    }
  }

  /** The values the server's countdown emits during its first `seconds`
      seconds: `drawtime - 1, drawtime - 2, ...`, stopping after 0. A
      draw time of 0 or less never reaches 0, so that countdown emits one
      value every second for as long as it is observed. */
  function Countdown(drawtime: int, seconds: nat): (ts: seq<int>)
    ensures |ts| == if 0 < drawtime <= seconds then drawtime else seconds
    ensures forall i :: 0 <= i < |ts| ==> ts[i] == drawtime - 1 - i
    decreases seconds
  {
    if seconds == 0 then []
    else [drawtime - 1] + (if drawtime - 1 == 0 then [] else Countdown(drawtime - 1, seconds - 1))
  }

  /** The number of zero times in the sequence. */
  function Zeros(times: seq<int>): nat
    decreases |times|
  {
    if |times| == 0 then 0 else (if times[0] == 0 then 1 else 0) + Zeros(times[1..])
  }

  /** Feeds a sequence of ticks to the component; the count says how often
      the turn-end callback fired, which is once per zero time. */
  function Run(t: Timer, times: seq<int>, rands: seq<nat>): (r: (Timer, nat))
    requires |rands| == |times|
    requires |t.mask| == |t.word|
    requires forall i :: 0 <= i < |rands| ==> rands[i] < |t.word| || (|t.word| == 0 && rands[i] == 0)
    ensures r.0.word == t.word && |r.0.mask| == |t.mask|
    ensures r.1 == Zeros(times)
    decreases |times|
  {
    if |times| == 0 then (t, 0)
    else
      var step := Tick(t, times[0], rands[0]);
      var rest := Run(step.timer, times[1..], rands[1..]);
      (rest.0, rest.1 + if step.ended then 1 else 0)
  }

  lemma {:induction false} CountdownHasOneZero(drawtime: int, seconds: nat)
    requires 0 < drawtime <= seconds
    ensures Zeros(Countdown(drawtime, seconds)) == 1
    decreases seconds
  {
    if drawtime > 1 {
      CountdownHasOneZero(drawtime - 1, seconds - 1);
      assert Countdown(drawtime, seconds)[1..] == Countdown(drawtime - 1, seconds - 1);
    }
  }

  lemma {:induction false} CountdownHasNoZero(drawtime: int, seconds: nat)
    requires drawtime <= 0
    ensures Zeros(Countdown(drawtime, seconds)) == 0
    decreases seconds
  {
    if seconds > 0 {
      CountdownHasNoZero(drawtime - 1, seconds - 1);
      assert Countdown(drawtime, seconds)[1..] == Countdown(drawtime - 1, seconds - 1);
    }
  }

  /** Over one server countdown the turn-end callback fires exactly once,
      on the last tick. */
  lemma CountdownEndsOnce(t: Timer, drawtime: int, seconds: nat, rands: seq<nat>)
    requires 0 < drawtime <= seconds && |rands| == drawtime
    requires |t.mask| == |t.word|
    requires forall i :: 0 <= i < |rands| ==> rands[i] < |t.word| || (|t.word| == 0 && rands[i] == 0)
    ensures Run(t, Countdown(drawtime, seconds), rands).1 == 1
  {
    CountdownHasOneZero(drawtime, seconds);
  }

  /** With a draw time of 0 or less the countdown never shows 0, so the
      turn-end callback never fires however long the ticks go on. */
  lemma CountdownNeverEnds(t: Timer, drawtime: int, seconds: nat, rands: seq<nat>)
    requires drawtime <= 0 && |rands| == seconds
    requires |t.mask| == |t.word|
    requires forall i :: 0 <= i < |rands| ==> rands[i] < |t.word| || (|t.word| == 0 && rands[i] == 0)
    ensures |Countdown(drawtime, seconds)| == seconds
    ensures Run(t, Countdown(drawtime, seconds), rands).1 == 0
  {
    CountdownHasNoZero(drawtime, seconds);
  }

}
