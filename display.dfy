/** The status line the countdown redraws every second (timerBeetle.py:165-232):
    the remaining time split into days, hours, minutes and seconds, shown in the
    shortest of four layouts, padded with `#` to a fixed width, and followed by a
    two-frame mascot that alternates with the parity of the remaining seconds. */
module Display {
  import opened Wrappers

  /** The colour and attribute escapes of timerBeetle.py:28-34, kept opaque. */
  datatype Ansi = BrightYellow | BrightGreen | Yellow | Blinking | Inverted | Dim | Reset

  /** A line is visible text interleaved with escapes. */
  datatype Segment = Text(text: string) | Style(code: Ansi)

  /** What a terminal shows of a line: its text, without the escapes. */
  function Visible(line: seq<Segment>): string
  {
    if line == [] then "" else Shown(line[0]) + Visible(line[1..])
  }

  function Shown(s: Segment): string
  {
    match s
    case Text(t) => t
    case Style(_) => ""
  }

  lemma {:induction false} VisibleAppend(a: seq<Segment>, b: seq<Segment>)
    ensures Visible(a + b) == Visible(a) + Visible(b)
  {
    if a != [] {
      assert (a + b)[1..] == a[1..] + b;
      VisibleAppend(a[1..], b);
    } else {
      assert a + b == b;
    }
  }

  // ---------------------------------------------------------------------------
  // Splitting the remaining seconds

  datatype Clock = Clock(days: nat, hrs: nat, mins: nat, secs: nat)

  predicate InRange(c: Clock)
  {
    c.secs < 60 && c.mins < 60 && c.hrs < 24
  }

  /** The number of seconds a clock reading stands for. */
  function Seconds(c: Clock): nat
  {
    c.days * 86400 + c.hrs * 3600 + c.mins * 60 + c.secs
  }

  /** The three `divmod` steps at timerBeetle.py:165-167. */
  function Split(secsIn: nat): (c: Clock)
    ensures InRange(c)
    ensures Seconds(c) == secsIn
  {
    var mins, secs := secsIn / 60, secsIn % 60;
    var hrs, mins' := mins / 60, mins % 60;
    var days, hrs' := hrs / 24, hrs % 24;
    Clock(days, hrs', mins', secs)
  }

  /** The split is the only in-range reading of a count of seconds. */
  lemma SplitUnique(c: Clock)
    requires InRange(c)
    ensures Split(Seconds(c)) == c
  {
    var s := Seconds(c);
    var m := c.days * 1440 + c.hrs * 60 + c.mins;
    assert s == m * 60 + c.secs;
    assert s / 60 == m && s % 60 == c.secs;
    var h := c.days * 24 + c.hrs;
    assert m == h * 60 + c.mins;
    assert m / 60 == h && m % 60 == c.mins;
    assert h / 24 == c.days && h % 24 == c.hrs;
  }

  // ---------------------------------------------------------------------------
  // The four layouts

  datatype Layout = OverNinetyNineDays | WithDays | WithHours | MinutesOnly

  function LayoutOf(c: Clock): Layout
  {
    if c.days > 0 then
      if c.days > 99 then OverNinetyNineDays else WithDays
    else if c.hrs > 0 then WithHours
    else MinutesOnly
  }

  /** The layout is the shortest one that holds the highest non-zero unit. */
  lemma LayoutByRange(secsIn: nat)
    ensures LayoutOf(Split(secsIn)) ==
      if secsIn >= 100 * 86400 then OverNinetyNineDays
      else if secsIn >= 86400 then WithDays
      else if secsIn >= 3600 then WithHours
      else MinutesOnly
  {
    var c := Split(secsIn);
    assert c.hrs * 3600 + c.mins * 60 + c.secs < 86400;
    assert c.mins * 60 + c.secs < 3600;
  }

  function DigitChar(d: nat): char
    requires d < 10
  {
    ('0' as int + d) as char
  }

  predicate IsField(f: string)
  {
    |f| == 2 && '0' <= f[0] <= '9' && '0' <= f[1] <= '9'
  }

  /** Reads a two-digit decimal field. */
  function ReadTwo(f: string): nat
    requires IsField(f)
  {
    (f[0] as int - '0' as int) * 10 + (f[1] as int - '0' as int)
  }

  /** `'{:02d}'.format(n)` for the values below 100 it is used on. */
  function Pad2(n: nat): (r: string)
    requires n < 100
    ensures IsField(r) && ReadTwo(r) == n
  {
    [DigitChar(n / 10), DigitChar(n % 10)]
  }

  /** The clock text of timerBeetle.py:177, 183-184, 190 and 196. */
  function ClockText(secsIn: nat): string
  {
    ClockFields(Split(secsIn))
  }

  function ClockFields(c: Clock): string
    requires InRange(c)
  {
    match LayoutOf(c)
    case OverNinetyNineDays => ">99:" + Pad2(c.hrs) + ":" + Pad2(c.mins) + ":" + Pad2(c.secs)
    case WithDays => Pad2(c.days) + ":" + Pad2(c.hrs) + ":" + Pad2(c.mins) + ":" + Pad2(c.secs)
    case WithHours => Pad2(c.hrs) + ":" + Pad2(c.mins) + ":" + Pad2(c.secs)
    case MinutesOnly => Pad2(c.mins) + ":" + Pad2(c.secs)
  }

  /** Reads a clock text back: `MM:SS`, `HH:MM:SS` or `DD:HH:MM:SS`, each field two
      digits; None for any other text. */
  function ReadClock(t: string): Option<nat>
  {
    if |t| == 5 && t[2] == ':' && IsField(t[..2]) && IsField(t[3..]) then
      Some(ReadTwo(t[..2]) * 60 + ReadTwo(t[3..]))
    else if |t| == 8 && t[2] == ':' && t[5] == ':' && IsField(t[..2]) && IsField(t[3..5]) && IsField(t[6..]) then
      Some(ReadTwo(t[..2]) * 3600 + ReadTwo(t[3..5]) * 60 + ReadTwo(t[6..]))
    else if |t| == 11 && t[2] == ':' && t[5] == ':' && t[8] == ':'
      && IsField(t[..2]) && IsField(t[3..5]) && IsField(t[6..8]) && IsField(t[9..]) then
      Some(ReadTwo(t[..2]) * 86400 + ReadTwo(t[3..5]) * 3600 + ReadTwo(t[6..8]) * 60 + ReadTwo(t[9..]))
    else None
  }

  lemma ReadMinutesSeconds(m: nat, s: nat)
    requires m < 100 && s < 100
    ensures ReadClock(Pad2(m) + ":" + Pad2(s)) == Some(m * 60 + s)
  {
    var t := Pad2(m) + ":" + Pad2(s);
    assert t[..2] == Pad2(m) && t[3..] == Pad2(s);
  }

  lemma ReadHoursMinutesSeconds(h: nat, m: nat, s: nat)
    requires h < 100 && m < 100 && s < 100
    ensures ReadClock(Pad2(h) + ":" + Pad2(m) + ":" + Pad2(s)) == Some(h * 3600 + m * 60 + s)
  {
    var t := Pad2(h) + ":" + Pad2(m) + ":" + Pad2(s);
    assert t[..2] == Pad2(h) && t[3..5] == Pad2(m) && t[6..] == Pad2(s);
  }

  lemma ReadDaysHoursMinutesSeconds(d: nat, h: nat, m: nat, s: nat)
    requires d < 100 && h < 100 && m < 100 && s < 100
    ensures ReadClock(Pad2(d) + ":" + Pad2(h) + ":" + Pad2(m) + ":" + Pad2(s)) ==
      Some(d * 86400 + h * 3600 + m * 60 + s)
  {
    var t := Pad2(d) + ":" + Pad2(h) + ":" + Pad2(m) + ":" + Pad2(s);
    assert t[..2] == Pad2(d) && t[3..5] == Pad2(h) && t[6..8] == Pad2(m) && t[9..] == Pad2(s);
  }

  /** Every in-range reading below 100 days reads back from its clock text. */
  lemma ClockFieldsRoundTrip(c: Clock)
    requires InRange(c) && c.days < 100
    ensures ReadClock(ClockFields(c)) == Some(Seconds(c))
  {
    if c.days > 0 {
      DaysRoundTrip(c);
    } else if c.hrs > 0 {
      HoursRoundTrip(c);
    } else {
      MinutesRoundTrip(c);
    }
  }

  lemma DaysRoundTrip(c: Clock)
    requires InRange(c) && 0 < c.days < 100
    ensures ReadClock(ClockFields(c)) == Some(Seconds(c))
  {
    ReadDaysHoursMinutesSeconds(c.days, c.hrs, c.mins, c.secs);
  }

  lemma HoursRoundTrip(c: Clock)
    requires InRange(c) && c.days == 0 && c.hrs > 0
    ensures ReadClock(ClockFields(c)) == Some(Seconds(c))
  {
    ReadHoursMinutesSeconds(c.hrs, c.mins, c.secs);
  }

  lemma MinutesRoundTrip(c: Clock)
    requires InRange(c) && c.days == 0 && c.hrs == 0
    ensures ReadClock(ClockFields(c)) == Some(Seconds(c))
  {
    ReadMinutesSeconds(c.mins, c.secs);
  }

  /** The clock shows the remaining time exactly, up to 99 days. */
  lemma ClockRoundTrip(secsIn: nat)
    requires secsIn < 100 * 86400
    ensures ReadClock(ClockText(secsIn)) == Some(secsIn)
  {
    var c := Split(secsIn);
    assert c.days < 100 by {
      assert c.days * 86400 <= secsIn;
    }
    ClockFieldsRoundTrip(c);
  }

  /** From 100 days up, the clock is `>99:` and the hours, minutes and seconds. */
  lemma ClockFieldsBeyondNinetyNineDays(c: Clock)
    requires InRange(c) && c.days > 99
    ensures ClockFields(c)[..4] == ">99:"
    ensures ReadClock(ClockFields(c)[4..]) == Some(c.hrs * 3600 + c.mins * 60 + c.secs)
  {
    var t := ClockFields(c);
    assert t[4..] == Pad2(c.hrs) + ":" + Pad2(c.mins) + ":" + Pad2(c.secs);
    ReadHoursMinutesSeconds(c.hrs, c.mins, c.secs);
  }

  /** Beyond 99 days the day count is replaced by `>99` and the rest of the clock
      shows the time left over after whole days. */
  lemma ClockBeyondNinetyNineDays(secsIn: nat)
    requires secsIn >= 100 * 86400
    ensures ClockText(secsIn)[..4] == ">99:"
    ensures ReadClock(ClockText(secsIn)[4..]) == Some(secsIn % 86400)
  {
    var c := Split(secsIn);
    LayoutByRange(secsIn);
    ClockFieldsBeyondNinetyNineDays(c);
    DayRemainder(c.days, c.hrs * 3600 + c.mins * 60 + c.secs);
  }

  lemma DayRemainder(days: nat, r: nat)
    requires r < 86400
    ensures (days * 86400 + r) % 86400 == r
  {
  }

  // ---------------------------------------------------------------------------
  // The whole line

  function Hashes(n: nat): string
  {
    seq(n, _ => '#')
  }

  /** The `#` run after the clock in each layout. */
  function Padding(l: Layout): string
  {
    match l
    case OverNinetyNineDays => " " + Hashes(9) + " "
    case WithDays => " " + Hashes(10) + " "
    case WithHours => " " + Hashes(13) + " "
    case MinutesOnly => " " + Hashes(16) + " "
  }

  /** The part of the line before the mascot. */
  function TimePart(secsIn: nat): seq<Segment>
  {
    [Text("# "), Style(Inverted), Text(ClockText(secsIn)), Style(Reset), Text(Padding(LayoutOf(Split(secsIn))))]
  }

  /** The mascot frame, chosen by parity (timerBeetle.py:199-232). */
  function Mascot(secsIn: nat): seq<Segment>
  {
    MascotFrame(Edge(secsIn), Eye(secsIn))
  }

  /** The mascot's legs: `/` on even seconds, `\` on odd ones. */
  function Edge(secsIn: nat): char
  {
    if secsIn % 2 == 0 then '/' else '\\'
  }

  /** The mascot's eyes: `>` on even seconds, `<` on odd ones. */
  function Eye(secsIn: nat): char
  {
    if secsIn % 2 == 0 then '>' else '<'
  }

  /** One frame of the mascot, `<edge><eye>w<eye><edge>`, with the pause hint. */
  function MascotFrame(edge: char, eye: char): seq<Segment>
  {
    [Style(BrightGreen), Text([edge]), Style(Yellow), Text([eye]), Style(BrightGreen), Text("w"),
     Style(Yellow), Text([eye]), Style(BrightGreen), Text([edge]), Style(Reset),
     Style(Dim), Text(" Hit Space to pause."), Style(Reset)]
  }

  function DisplayLine(secsIn: nat): seq<Segment>
  {
    TimePart(secsIn) + Mascot(secsIn)
  }

  lemma VisibleStep(line: seq<Segment>, k: nat)
    requires k < |line|
    ensures Visible(line[k..]) == Shown(line[k]) + Visible(line[k + 1..])
  {
    assert line[k..][1..] == line[k + 1..];
  }

  lemma ClockTextWidth(secsIn: nat)
    ensures |ClockText(secsIn)| + |Padding(LayoutOf(Split(secsIn)))| == 23
  {
  }

  lemma VisibleFive(a: Segment, b: Segment, c: Segment, d: Segment, e: Segment)
    ensures Visible([a, b, c, d, e]) == Shown(a) + (Shown(b) + (Shown(c) + (Shown(d) + Shown(e))))
  {
    var l := [a, b, c, d, e];
    assert Visible(l[4..]) == Shown(e) by {
      VisibleStep(l, 4);
      assert l[5..] == [];
    }
    assert Visible(l[3..]) == Shown(d) + Shown(e) by { VisibleStep(l, 3); }
    assert Visible(l[2..]) == Shown(c) + (Shown(d) + Shown(e)) by { VisibleStep(l, 2); }
    VisibleStep(l, 1);
  }

  /** Every layout is padded so that the text before the mascot is 25 characters wide. */
  lemma TimePartWidth(secsIn: nat)
    ensures |Visible(TimePart(secsIn))| == 25
  {
    var clock, pad := ClockText(secsIn), Padding(LayoutOf(Split(secsIn)));
    VisibleFive(Text("# "), Style(Inverted), Text(clock), Style(Reset), Text(pad));
    ClockTextWidth(secsIn);
  }

  /** The pause hint closing a mascot frame. */
  lemma HintVisible(edge: char, eye: char)
    ensures Visible(MascotFrame(edge, eye)[10..]) == " Hit Space to pause."
  {
    var m := MascotFrame(edge, eye);
    assert Visible(m[13..]) == "" by {
      VisibleStep(m, 13);
      assert m[14..] == [];
    }
    assert Visible(m[12..]) == " Hit Space to pause." by { VisibleStep(m, 12); }
    VisibleStep(m, 11);
    VisibleStep(m, 10);
  }

  lemma BodyVisible(edge: char, eye: char)
    ensures Visible(MascotFrame(edge, eye)[5..]) == "w" + ([eye] + ([edge] + " Hit Space to pause."))
  {
    var m := MascotFrame(edge, eye);
    var hint := " Hit Space to pause.";
    HintVisible(edge, eye);
    assert Visible(m[9..]) == [edge] + hint by { VisibleStep(m, 9); }
    assert Visible(m[8..]) == [edge] + hint by { VisibleStep(m, 8); }
    assert Visible(m[7..]) == [eye] + ([edge] + hint) by { VisibleStep(m, 7); }
    assert Visible(m[6..]) == [eye] + ([edge] + hint) by { VisibleStep(m, 6); }
    VisibleStep(m, 5);
  }

  lemma FaceVisible(edge: char, eye: char)
    ensures Visible(MascotFrame(edge, eye)[2..]) == [eye] + ("w" + ([eye] + ([edge] + " Hit Space to pause.")))
  {
    var m := MascotFrame(edge, eye);
    var rest := "w" + ([eye] + ([edge] + " Hit Space to pause."));
    BodyVisible(edge, eye);
    assert Visible(m[4..]) == rest by { VisibleStep(m, 4); }
    assert Visible(m[3..]) == [eye] + rest by { VisibleStep(m, 3); }
    VisibleStep(m, 2);
  }

  /** A frame shows `<edge><eye>w<eye><edge>` followed by the pause hint. */
  lemma MascotFrameVisible(edge: char, eye: char)
    ensures Visible(MascotFrame(edge, eye)) == [edge] + ([eye] + ("w" + ([eye] + ([edge] + " Hit Space to pause."))))
  {
    FaceVisible(edge, eye);
    VisibleStep(MascotFrame(edge, eye), 1);
  }

  /** The two mascot frames, `/>w>/` on even seconds and `\<w<\` on odd ones, so the
      mascot changes every second and repeats every two. */
  lemma MascotAlternates(secsIn: nat)
    ensures Visible(Mascot(secsIn)) ==
      (if secsIn % 2 == 0 then "/>w>/" else "\\<w<\\") + " Hit Space to pause."
    ensures Visible(Mascot(secsIn)) != Visible(Mascot(secsIn + 1))
    ensures Mascot(secsIn) == Mascot(secsIn + 2)
  {
    MascotFrameVisible(Edge(secsIn), Eye(secsIn));
    MascotFrameVisible(Edge(secsIn + 1), Eye(secsIn + 1));
    assert Visible(Mascot(secsIn))[0] != Visible(Mascot(secsIn + 1))[0];
    assert Edge(secsIn) == Edge(secsIn + 2) && Eye(secsIn) == Eye(secsIn + 2);
  }

  /** The whole status line is 50 characters wide whatever the remaining time, so
      each redraw over `\r` covers the previous one. */
  lemma DisplayLineWidth(secsIn: nat)
    ensures |Visible(DisplayLine(secsIn))| == 50
  {
    VisibleAppend(TimePart(secsIn), Mascot(secsIn));
    TimePartWidth(secsIn);
    MascotFrameVisible(Edge(secsIn), Eye(secsIn));
  }
}
