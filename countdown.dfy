/** The countdown loop of timerBeetle's `main` (timerBeetle.py:164-265): while the
    remaining seconds are non-zero, draw the status line, look for one key without
    blocking, and on a space wait for a second space and give 2 seconds back; then
    sleep one second and take one second off. */
module Countdown {
  import opened Display
  import DurationParser

  /** What the non-blocking poll of one iteration finds: nothing, or one key read. */
  datatype KeyEvent = Idle | Key(c: char)

  /** Seconds given back on resume, for the time the pause and read took (timerBeetle.py:261-262). */
  const ResumeBonus: nat := 2

  predicate IsPause(e: KeyEvent)
  {
    e == Key(' ')
  }

  /** The number of pause keys in a key trace. */
  function Pauses(keys: seq<KeyEvent>): nat
  {
    if keys == [] then 0 else (if IsPause(keys[0]) then 1 else 0) + Pauses(keys[1..])
  }

  /** The event of the next iteration; once the trace is used up no key is pressed. */
  function Next(keys: seq<KeyEvent>): KeyEvent
  {
    if keys == [] then Idle else keys[0]
  }

  function Rest(keys: seq<KeyEvent>): seq<KeyEvent>
  {
    if keys == [] then [] else keys[1..]
  }

  /** The event of iteration `i`: the trace read through `Next` and `Rest`. */
  function EventAt(keys: seq<KeyEvent>, i: nat): KeyEvent
  {
    if i == 0 then Next(keys) else EventAt(Rest(keys), i - 1)
  }

  /** The value of `secsIn` after one iteration that saw event `e`. */
  function Step(secsIn: nat, e: KeyEvent): nat
    requires secsIn > 0
  {
    (if IsPause(e) then secsIn + ResumeBonus else secsIn) - 1
  }

  /** The values of `secsIn` at which the loop draws its line, in order: one per
      iteration. Every iteration either spends a pause from the trace or brings
      `secsIn` one closer to zero, hence the measure. */
  function Ticks(secsIn: nat, keys: seq<KeyEvent>): seq<nat>
    decreases Pauses(keys), secsIn
  {
    if secsIn == 0 then []
    else [secsIn] + Ticks(Step(secsIn, Next(keys)), Rest(keys))
  }

  /** The loop itself. `shown` records `secsIn` at each drawing and `lines` the lines
      drawn; the loop ends with `secsIn` at zero. */
  method Run(start: nat, keys: seq<KeyEvent>) returns (shown: seq<nat>, lines: seq<seq<Segment>>, secsIn: int)
    ensures shown == Ticks(start, keys)
    ensures |lines| == |shown|
    ensures forall i :: 0 <= i < |shown| ==> lines[i] == DisplayLine(shown[i])
    ensures secsIn == 0
  {
    secsIn := start;
    var pending := keys;
    shown, lines := [], [];
    while secsIn != 0
      invariant secsIn >= 0
      invariant shown + Ticks(secsIn, pending) == Ticks(start, keys)
      invariant |lines| == |shown|
      invariant forall i :: 0 <= i < |shown| ==> lines[i] == DisplayLine(shown[i])
      decreases Pauses(pending), secsIn
    {
      ghost var before, drawn, waiting := secsIn, shown, pending;
      PausesRest(pending);
      shown := shown + [secsIn];
      lines := lines + [DisplayLine(secsIn)];
      var polled := Next(pending);
      pending := Rest(pending);
      if polled.Key? {
        var pauseIn := polled.c;
        if pauseIn == ' ' {
          secsIn := secsIn + ResumeBonus;
        }
      }
      secsIn := secsIn - 1;
      assert secsIn == Step(before, polled);
      assert Ticks(before, waiting) == [before] + Ticks(secsIn, pending);
      assert shown + Ticks(secsIn, pending) == drawn + Ticks(before, waiting);
    }
  }

  /** A trace loses one pause exactly when its next event is a pause. */
  lemma PausesRest(keys: seq<KeyEvent>)
    ensures Pauses(keys) == Pauses(Rest(keys)) + (if IsPause(Next(keys)) then 1 else 0)
  {
  }

  /** The blocking wait while paused (timerBeetle.py:259-260): keys are read one at a
      time until a space; returns how many were read. */
  method WaitForResume(stream: string) returns (read: nat)
    requires ' ' in stream
    ensures 0 < read <= |stream|
    ensures stream[read - 1] == ' '
    ensures ' ' !in stream[..read - 1]
  {
    var pauseIn := "";
    read := 0;
    while pauseIn != " "
      invariant read <= |stream|
      invariant pauseIn == if read == 0 then "" else [stream[read - 1]]
      invariant ' ' !in stream[..if read == 0 then 0 else read - 1]
      invariant pauseIn != " " ==> ' ' !in stream[..read]
      decreases |stream| - read
    {
      pauseIn := [stream[read]];
      read := read + 1;
      assert stream[..read] == stream[..read - 1] + [stream[read - 1]];
    }
  }

  /** Parse the arguments, then count down: the whole program apart from terminal
      set-up, sleeping and the alarm. */
  method Timer(args: seq<string>, keys: seq<KeyEvent>) returns (r: DurationParser.Result<seq<nat>>)
    ensures DurationParser.Parse(args).Err? ==> r == DurationParser.Err(DurationParser.Parse(args).error)
    ensures DurationParser.Parse(args).Ok? ==> r == DurationParser.Ok(Ticks(DurationParser.Parse(args).value, keys))
  {
    var parsed := DurationParser.ParseTimeInSecs(args);
    if parsed.Err? {
      return DurationParser.Err(parsed.error);
    }
    var shown, _, _ := Run(parsed.value, keys);
    return DurationParser.Ok(shown);
  }

  // ---------------------------------------------------------------------------
  // Properties of the loop

  /** Without pause keys (no key, or only other keys) the loop runs exactly `n`
      times, drawing n, n-1, ..., 1; with n = 0 it does not run at all. */
  lemma {:induction false} RunWithoutPauses(n: nat, keys: seq<KeyEvent>)
    requires forall i :: 0 <= i < |keys| ==> !IsPause(keys[i])
    ensures |Ticks(n, keys)| == n
    ensures forall i :: 0 <= i < n ==> Ticks(n, keys)[i] == n - i
    decreases n
  {
    if n > 0 {
      assert !IsPause(Next(keys));
      var rest := Rest(keys);
      assert forall i :: 0 <= i < |rest| ==> rest[i] == keys[i + 1];
      RunWithoutPauses(n - 1, rest);
    }
  }

  /** Each iteration changes `secsIn` by exactly +1 when its key is a space (2 given
      back, 1 taken) and by exactly -1 otherwise; the loop starts at `n`, never draws
      a zero or negative count, and stops exactly when the count reaches zero. */
  lemma {:induction false} RunSteps(n: nat, keys: seq<KeyEvent>)
    ensures Ticks(n, keys) == [] <==> n == 0
    ensures n > 0 ==> Ticks(n, keys)[0] == n
    ensures forall i :: 0 <= i < |Ticks(n, keys)| ==> Ticks(n, keys)[i] > 0
    ensures forall i :: 0 <= i < |Ticks(n, keys)| ==>
      (if i + 1 < |Ticks(n, keys)| then Ticks(n, keys)[i + 1] else 0)
        == Ticks(n, keys)[i] + (if IsPause(EventAt(keys, i)) then 1 else -1)
    decreases Pauses(keys), n
  {
    if n > 0 {
      var m, rest := Step(n, Next(keys)), Rest(keys);
      RunSteps(m, rest);
      var t, u := Ticks(n, keys), Ticks(m, rest);
      assert t == [n] + u;
      forall i | 0 <= i < |t|
        ensures (if i + 1 < |t| then t[i + 1] else 0) == t[i] + (if IsPause(EventAt(keys, i)) then 1 else -1)
      {
        if i > 0 {
          assert t[i] == u[i - 1];
          assert EventAt(keys, i) == EventAt(rest, i - 1);
          assert (if i < |u| then u[i] else 0) == u[i - 1] + (if IsPause(EventAt(rest, i - 1)) then 1 else -1);
          if i + 1 < |t| {
            assert t[i + 1] == u[i];
          }
        } else {
          assert t[0] == n;
          assert EventAt(keys, 0) == Next(keys);
          assert m == n + (if IsPause(Next(keys)) then 1 else -1);
          if 1 < |t| {
            assert t[1] == u[0];
          }
        }
      }
    }
  }

  /** The number of iterations is the start value plus two for every pause the loop
      actually takes (the pauses among the first |Ticks| events of the trace). */
  lemma {:induction false} RunLength(n: nat, keys: seq<KeyEvent>)
    ensures var k := |Ticks(n, keys)|;
      k == n + 2 * Pauses(keys[..if k < |keys| then k else |keys|])
    decreases Pauses(keys), n
  {
    if n > 0 {
      var m, rest := Step(n, Next(keys)), Rest(keys);
      RunLength(m, rest);
      var k := |Ticks(n, keys)|;
      var j := |Ticks(m, rest)|;
      assert k == j + 1;
      if keys != [] {
        var p := keys[..if k < |keys| then k else |keys|];
        assert p[1..] == rest[..if j < |rest| then j else |rest|];
      }
    }
  }
}
