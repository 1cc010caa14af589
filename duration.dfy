/** The duration parser of timerBeetle: the command-line tokens are joined into one
    expression, which is either a plain count of minutes ("25") or one to four
    `<digits><unit>` components ("1d12h30m30s", "1h 30m"), each unit used at most once. */
module DurationParser {
  import opened Wrappers

  /** The three ways the parser gives up (each an exit with status 1 in the program). */
  datatype ParseError = MissingInput | BadInput | RepeatedUnits

  datatype Result<T> = Ok(value: T) | Err(error: ParseError)

  datatype Unit = Day | Hour | Minute | Second

  /** Seconds per unit. */
  function Scale(u: Unit): nat
  {
    match u
    case Day => 24 * 60 * 60
    case Hour => 60 * 60
    case Minute => 60
    case Second => 1
  }

  /** The lower-case letter that names a unit. */
  function Letter(u: Unit): char
  {
    match u
    case Day => 'd'
    case Hour => 'h'
    case Minute => 'm'
    case Second => 's'
  }

  /** The unit a letter names, if any (only lower-case letters name units). */
  function UnitOf(c: char): (r: Option<Unit>)
    ensures r.Some? <==> c in "dhms"
    ensures r.Some? ==> Letter(r.value) == c
  {
    if c == 'd' then Some(Day)
    else if c == 'h' then Some(Hour)
    else if c == 'm' then Some(Minute)
    else if c == 's' then Some(Second)
    else None
  }

  // ---------------------------------------------------------------------------
  // Digits

  predicate IsDigit(c: char) { '0' <= c <= '9' }

  predicate AllDigits(s: string) { forall i :: 0 <= i < |s| ==> IsDigit(s[i]) }

  /** A non-empty run of ASCII digits: what `str.isdigit` accepts, restricted to ASCII. */
  predicate IsDigitString(s: string) { |s| > 0 && AllDigits(s) }

  type Digits = s: string | IsDigitString(s) witness "0"

  /** The decimal value of a digit string (leading zeros allowed), as `int()` reads it. */
  function DigitsValue(s: string): nat
    requires AllDigits(s)
  {
    if s == [] then 0
    else DigitsValue(s[..|s| - 1]) * 10 + (s[|s| - 1] as int - '0' as int)
  }

  /** The number of leading digits of `s`. */
  function DigitRun(s: string): (n: nat)
    ensures n <= |s| && AllDigits(s[..n])
    ensures n < |s| ==> !IsDigit(s[n])
  {
    if s != [] && IsDigit(s[0]) then 1 + DigitRun(s[1..]) else 0
  }

  /** The number of leading spaces of `s`. */
  function SpaceRun(s: string): (n: nat)
    ensures n <= |s| && s[..n] == Spaces(n)
    ensures n < |s| ==> s[n] != ' '
  {
    if s != [] && s[0] == ' ' then 1 + SpaceRun(s[1..]) else 0
  }

  function Spaces(n: nat): string
  {
    seq(n, _ => ' ')
  }

  // ---------------------------------------------------------------------------
  // Case folding

  /** ASCII lower-casing of one character. */
  function LowerChar(c: char): char
  {
    if 'A' <= c <= 'Z' then (c as int + 32) as char else c
  }

  function Lower(s: string): string
  {
    seq(|s|, i requires 0 <= i < |s| => LowerChar(s[i]))
  }

  lemma LowerIdempotent(s: string)
    ensures Lower(Lower(s)) == Lower(s)
  {
  }

  /** Lower-casing keeps digits digits and non-digits non-digits. */
  lemma LowerKeepsDigits(s: string)
    ensures IsDigitString(Lower(s)) <==> IsDigitString(s)
  {
    assert forall i :: 0 <= i < |s| ==> (IsDigit(Lower(s)[i]) <==> IsDigit(s[i]));
  }

  // ---------------------------------------------------------------------------
  // The multi-unit grammar

  /** One `<digits><unit>` fragment of an expression. */
  datatype Component = Component(digits: Digits, unit: Unit)

  /** A component together with the run of spaces written after it. */
  datatype Piece = Piece(comp: Component, gap: nat)

  function Spell(c: Component): string
  {
    c.digits + [Letter(c.unit)]
  }

  /** The text that a list of pieces spells: the grammar read as a generator. */
  function Render(ps: seq<Piece>): string
  {
    if ps == [] then "" else Spell(ps[0].comp) + Spaces(ps[0].gap) + Render(ps[1..])
  }

  /** The sentences the anchored pattern at timerBeetle.py:79-82 accepts are exactly
      the renderings of one to four pieces. */
  predicate Grammatical(ps: seq<Piece>)
  {
    1 <= |ps| <= 4
  }

  function Comps(ps: seq<Piece>): (cs: seq<Component>)
    ensures |cs| == |ps| && forall i :: 0 <= i < |ps| ==> cs[i] == ps[i].comp
  {
    if ps == [] then [] else [ps[0].comp] + Comps(ps[1..])
  }

  /** Reads one piece off the front of `s`: a digit run, a unit letter and the run
      of spaces after it; also returns how many characters the piece took. */
  function ScanPiece(s: string): (r: Option<(Piece, nat)>)
    ensures r.Some? ==> 0 < r.value.1 <= |s|
  {
    var n := DigitRun(s);
    if n == 0 || n == |s| || UnitOf(s[n]).None? then None
    else
      var g := SpaceRun(s[n + 1..]);
      Some((Piece(Component(s[..n], UnitOf(s[n]).value), g), n + 1 + g))
  }

  /** Hand-written recogniser: splits `s` into pieces until the text is used up;
      None if `s` is not of that shape (a leading space, a missing unit letter, a
      stray character). */
  function Scan(s: string): Option<seq<Piece>>
    decreases |s|
  {
    if s == [] then Some([])
    else
      match ScanPiece(s)
      case None => None
      case Some((p, k)) =>
        match Scan(s[k..])
        case None => None
        case Some(rest) => Some([p] + rest)
  }

  /** The anchored match: one to four components and nothing else. */
  function Recognise(s: string): Option<seq<Component>>
  {
    match Scan(s)
    case Some(ps) => if Grammatical(ps) then Some(Comps(ps)) else None
    case None => None
  }

  lemma RenderNonEmptyStartsWithDigit(ps: seq<Piece>)
    requires ps != []
    ensures |Render(ps)| > 0 && IsDigit(Render(ps)[0])
  {
    assert Render(ps) == ps[0].comp.digits + ([Letter(ps[0].comp.unit)] + Spaces(ps[0].gap) + Render(ps[1..]));
  }

  lemma ScanPieceSound(s: string)
    requires ScanPiece(s).Some?
    ensures var (p, k) := ScanPiece(s).value; s[..k] == Spell(p.comp) + Spaces(p.gap)
  {
    var n := DigitRun(s);
    var g := SpaceRun(s[n + 1..]);
    assert s[n + 1..][..g] == s[n + 1..n + 1 + g];
    assert s[..n + 1 + g] == s[..n] + [s[n]] + s[n + 1..n + 1 + g];
  }

  /** Whatever the recogniser returns spells the input back. */
  lemma {:induction false} ScanSound(s: string)
    requires Scan(s).Some?
    ensures Render(Scan(s).value) == s
    decreases |s|
  {
    if s != [] {
      var (p, k) := ScanPiece(s).value;
      ScanPieceSound(s);
      ScanSound(s[k..]);
      var ps := Scan(s).value;
      assert ps == [p] + Scan(s[k..]).value;
      assert s == s[..k] + s[k..];
    }
  }

  lemma {:induction false} DigitRunOf(d: string, rest: string)
    requires AllDigits(d)
    requires rest == [] || !IsDigit(rest[0])
    ensures DigitRun(d + rest) == |d|
  {
    if d != [] {
      assert (d + rest)[1..] == d[1..] + rest;
      DigitRunOf(d[1..], rest);
    } else {
      assert d + rest == rest;
    }
  }

  lemma {:induction false} SpaceRunOf(n: nat, rest: string)
    requires rest == [] || rest[0] != ' '
    ensures SpaceRun(Spaces(n) + rest) == n
  {
    if n > 0 {
      assert (Spaces(n) + rest)[1..] == Spaces(n - 1) + rest;
      SpaceRunOf(n - 1, rest);
    } else {
      assert Spaces(n) + rest == rest;
    }
  }

  lemma ScanPieceComplete(p: Piece, tail: string)
    requires tail == [] || IsDigit(tail[0])
    ensures ScanPiece(Spell(p.comp) + Spaces(p.gap) + tail)
      == Some((p, |p.comp.digits| + 1 + p.gap))
  {
    var d := p.comp.digits;
    var after := Spaces(p.gap) + tail;
    var s := Spell(p.comp) + Spaces(p.gap) + tail;
    assert s == d + ([Letter(p.comp.unit)] + after);
    DigitRunOf(d, [Letter(p.comp.unit)] + after);
    assert s[|d|] == Letter(p.comp.unit);
    assert s[|d| + 1..] == after;
    SpaceRunOf(p.gap, tail);
    assert s[..|d|] == d;
  }

  /** What is left after a piece is read is the text that followed it. */
  lemma PieceRest(p: Piece, tail: string)
    ensures (Spell(p.comp) + Spaces(p.gap) + tail)[|p.comp.digits| + 1 + p.gap..] == tail
  {
    assert |Spell(p.comp) + Spaces(p.gap)| == |p.comp.digits| + 1 + p.gap;
  }

  /** The recogniser reads the first piece of a rendering and leaves the rendering
      of the rest. */
  lemma ScanFront(ps: seq<Piece>)
    requires ps != []
    ensures var k: nat := |ps[0].comp.digits| + 1 + ps[0].gap;
      ScanPiece(Render(ps)) == Some((ps[0], k)) && Render(ps)[k..] == Render(ps[1..])
  {
    var tail := Render(ps[1..]);
    if ps[1..] != [] { RenderNonEmptyStartsWithDigit(ps[1..]); }
    ScanPieceComplete(ps[0], tail);
    PieceRest(ps[0], tail);
  }

  /** Every rendering of pieces is recognised, and as exactly those pieces. */
  lemma {:induction false} ScanComplete(ps: seq<Piece>)
    ensures Scan(Render(ps)) == Some(ps)
  {
    if ps != [] {
      ScanFront(ps);
      ScanComplete(ps[1..]);
      assert [ps[0]] + ps[1..] == ps;
    }
  }

  /** Soundness of the anchored match: an accepted text is one to four components,
      separated and followed by spaces only, and the match yields those components. */
  lemma RecogniseSound(s: string)
    requires Recognise(s).Some?
    ensures exists ps :: Grammatical(ps) && Render(ps) == s && Comps(ps) == Recognise(s).value
  {
    ScanSound(s);
    var ps := Scan(s).value;
    assert Grammatical(ps) && Render(ps) == s && Comps(ps) == Recognise(s).value;
  }

  /** Completeness of the anchored match: every such text is accepted, with its components. */
  lemma RecogniseComplete(ps: seq<Piece>)
    requires Grammatical(ps)
    ensures Recognise(Render(ps)) == Some(Comps(ps))
  {
    ScanComplete(ps);
  }

  /** A fifth component, or a text that is not a rendering of pieces, is rejected. */
  lemma RecogniseRejects(s: string)
    ensures Recognise(s).None? <==> forall ps :: Render(ps) == s ==> !Grammatical(ps)
  {
    if Recognise(s).None? {
      forall ps | Render(ps) == s ensures !Grammatical(ps) {
        if Grammatical(ps) { RecogniseComplete(ps); }
      }
    } else {
      RecogniseSound(s);
    }
  }

  /** A rendering contains only digits, unit letters and spaces, all lower case. */
  lemma {:induction false} RenderIsLower(ps: seq<Piece>)
    ensures Lower(Render(ps)) == Render(ps)
  {
    if ps != [] {
      RenderIsLower(ps[1..]);
      var s := Render(ps);
      var head := Spell(ps[0].comp) + Spaces(ps[0].gap);
      assert s == head + Render(ps[1..]);
      forall i | 0 <= i < |s| ensures LowerChar(s[i]) == s[i] {
        if i >= |head| {
          assert s[i] == Render(ps[1..])[i - |head|];
          assert Lower(Render(ps[1..]))[i - |head|] == Render(ps[1..])[i - |head|];
        }
      }
    }
  }

  /** A rendering always holds a unit letter, so it never reads as plain minutes. */
  lemma RenderNotDigits(ps: seq<Piece>)
    requires ps != []
    ensures !IsDigitString(Render(ps))
  {
    var d := ps[0].comp.digits;
    assert Render(ps)[|d|] == Letter(ps[0].comp.unit);
  }

  // ---------------------------------------------------------------------------
  // Totals and the repeated-unit rule

  /** The number of seconds one component stands for. */
  function Seconds(c: Component): nat
  {
    DigitsValue(c.digits) * Scale(c.unit)
  }

  /** The sum of the components' seconds, in any order. */
  function Sum(cs: seq<Component>): nat
  {
    if cs == [] then 0 else Sum(cs[..|cs| - 1]) + Seconds(cs[|cs| - 1])
  }

  function UnitSet(cs: seq<Component>): set<Unit>
  {
    set c | c in cs :: c.unit
  }

  /** No unit occurs twice. */
  predicate Distinct(cs: seq<Component>)
  {
    forall i, j :: 0 <= i < j < |cs| ==> cs[i].unit != cs[j].unit
  }

  /** What a recognised expression is worth: its total, or the repeated-unit error. */
  function Total(cs: seq<Component>): Result<nat>
  {
    if Distinct(cs) then Ok(Sum(cs)) else Err(RepeatedUnits)
  }

  lemma DistinctSnoc(a: seq<Component>, x: Component)
    ensures Distinct(a + [x]) <==> Distinct(a) && x.unit !in UnitSet(a)
  {
    var b := a + [x];
    if x.unit in UnitSet(a) {
      var c :| c in a && c.unit == x.unit;
      var k :| 0 <= k < |a| && a[k] == c;
      assert b[k].unit == b[|a|].unit;
    }
    if Distinct(a) && x.unit !in UnitSet(a) {
      forall i, j | 0 <= i < j < |b| ensures b[i].unit != b[j].unit {
        if j == |a| { assert b[i] in a; }
        else { assert b[i] == a[i] && b[j] == a[j]; }
      }
    }
    if Distinct(b) {
      forall i, j | 0 <= i < j < |a| ensures a[i].unit != a[j].unit {
        assert a[i] == b[i] && a[j] == b[j];
      }
    }
  }

  /** Distinctness is a matter of counting: there are as many units as components. */
  lemma {:induction false} DistinctByCount(cs: seq<Component>)
    ensures |UnitSet(cs)| <= |cs|
    ensures Distinct(cs) <==> |UnitSet(cs)| == |cs|
  {
    if cs != [] {
      var a, x := cs[..|cs| - 1], cs[|cs| - 1];
      assert cs == a + [x];
      DistinctByCount(a);
      DistinctSnoc(a, x);
      assert UnitSet(cs) == UnitSet(a) + {x.unit};
    } else {
      assert UnitSet(cs) == {};
    }
  }

  lemma {:induction false} SumAppend(a: seq<Component>, b: seq<Component>)
    ensures Sum(a + b) == Sum(a) + Sum(b)
    decreases |b|
  {
    if b != [] {
      var b' := b[..|b| - 1];
      assert (a + b)[..|a + b| - 1] == a + b';
      SumAppend(a, b');
    } else {
      assert a + b == a;
    }
  }

  /** Taking one component out of a list removes it from the multiset... */
  lemma RemoveAtMultiset(b: seq<Component>, j: nat)
    requires j < |b|
    ensures multiset(b[..j] + b[j + 1..]) == multiset(b) - multiset{b[j]}
  {
    var lo, x, hi := b[..j], b[j], b[j + 1..];
    SplitAt(b, j);
    assert multiset(b) == multiset(lo) + multiset{x} + multiset(hi);
  }

  /** ... and its seconds from the sum. */
  lemma RemoveAtSum(b: seq<Component>, j: nat)
    requires j < |b|
    ensures Sum(b) == Sum(b[..j] + b[j + 1..]) + Seconds(b[j])
  {
    var lo, x, hi := b[..j], b[j], b[j + 1..];
    calc {
      Sum(b);
      { SplitAt(b, j); }
      Sum((lo + [x]) + hi);
      { SumAppend(lo + [x], hi); }
      Sum(lo + [x]) + Sum(hi);
      { SumAppend(lo, [x]); SumOne(x); }
      Sum(lo) + Seconds(x) + Sum(hi);
      { SumAppend(lo, hi); }
      Sum(lo + hi) + Seconds(x);
    }
  }

  lemma SplitAt(b: seq<Component>, j: nat)
    requires j < |b|
    ensures b == (b[..j] + [b[j]]) + b[j + 1..]
  {
  }

  lemma SumOne(x: Component)
    ensures Sum([x]) == Seconds(x)
  {
    assert [x][..0] == [];
  }

  lemma {:induction false} SumPermutation(a: seq<Component>, b: seq<Component>)
    requires multiset(a) == multiset(b)
    ensures Sum(a) == Sum(b)
    decreases |a|
  {
    if a == [] {
      assert |b| == |multiset(b)| == 0;
    } else {
      var a', x := a[..|a| - 1], a[|a| - 1];
      assert a == a' + [x];
      assert multiset(a') == multiset(a) - multiset{x};
      assert x in multiset(b);
      var j :| 0 <= j < |b| && b[j] == x;
      RemoveAtMultiset(b, j);
      RemoveAtSum(b, j);
      SumPermutation(a', b[..j] + b[j + 1..]);
    }
  }

  /** Component order has no effect on the outcome, neither on the total nor on the
      repeated-unit check. */
  lemma TotalPermutation(a: seq<Component>, b: seq<Component>)
    requires multiset(a) == multiset(b)
    ensures Total(a) == Total(b)
  {
    SumPermutation(a, b);
    assert |a| == |multiset(a)| == |b|;
    assert UnitSet(a) == UnitSet(b) by {
      assert forall c :: c in a <==> c in multiset(a);
      assert forall c :: c in b <==> c in multiset(b);
    }
    DistinctByCount(a);
    DistinctByCount(b);
  }

  lemma PrefixStep(cs: seq<Component>, i: nat)
    requires i < |cs|
    ensures Distinct(cs[..i + 1]) <==> Distinct(cs[..i]) && cs[i].unit !in UnitSet(cs[..i])
    ensures UnitSet(cs[..i + 1]) == UnitSet(cs[..i]) + {cs[i].unit}
    ensures Sum(cs[..i + 1]) == Sum(cs[..i]) + Seconds(cs[i])
  {
    assert cs[..i + 1][..i] == cs[..i];
    assert cs[..i + 1] == cs[..i] + [cs[i]];
    DistinctSnoc(cs[..i], cs[i]);
  }

  /** A unit seen before position `i` and again at `i` is a repeat. */
  lemma RepeatNotDistinct(cs: seq<Component>, i: nat)
    requires i < |cs| && cs[i].unit in UnitSet(cs[..i])
    ensures !Distinct(cs)
  {
    var c :| c in cs[..i] && c.unit == cs[i].unit;
    var k :| 0 <= k < i && cs[..i][k] == c;
    assert cs[k].unit == cs[i].unit;
  }

  /** The walk over the matched groups (timerBeetle.py:105-125): one flag per unit,
      each component's seconds added the first time its unit is seen, and a hard
      error the second time. */
  method Accumulate(cs: seq<Component>) returns (r: Result<nat>)
    ensures r == Total(cs)
  {
    var gotDay, gotHr, gotMin, gotSec := false, false, false, false;
    var totalSecs: nat := 0;
    ghost var seen: set<Unit> := {};
    var i := 0;
    while i < |cs|
      invariant 0 <= i <= |cs|
      invariant seen == UnitSet(cs[..i])
      invariant gotDay == (Day in seen) && gotHr == (Hour in seen)
      invariant gotMin == (Minute in seen) && gotSec == (Second in seen)
      invariant Distinct(cs[..i])
      invariant totalSecs == Sum(cs[..i])
    {
      var amount := DigitsValue(cs[i].digits);
      var unit := cs[i].unit;
      PrefixStep(cs, i);
      if unit == Day && !gotDay {
        gotDay := true;
        totalSecs := totalSecs + amount * (24 * 60 * 60);
      } else if unit == Hour && !gotHr {
        gotHr := true;
        totalSecs := totalSecs + amount * (60 * 60);
      } else if unit == Minute && !gotMin {
        gotMin := true;
        totalSecs := totalSecs + amount * 60;
      } else if unit == Second && !gotSec {
        gotSec := true;
        totalSecs := totalSecs + amount;
      } else {
        RepeatNotDistinct(cs, i);
        return Err(RepeatedUnits);
      }
      seen := seen + {unit};
      i := i + 1;
    }
    assert cs[..i] == cs;
    return Ok(totalSecs);
  }

  // ---------------------------------------------------------------------------
  // The whole parser

  /** The tokens joined with no separator. */
  function Join(args: seq<string>): string
  {
    if args == [] then "" else Join(args[..|args| - 1]) + args[|args| - 1]
  }

  /** Specification of the parser on the joined text (timerBeetle.py:73-141). */
  function ParseText(timeIn: string): Result<nat>
  {
    if IsDigitString(timeIn) then Ok(DigitsValue(timeIn) * 60)
    else
      match Recognise(Lower(timeIn))
      case None => Err(BadInput)
      case Some(cs) => Total(cs)
  }

  /** Specification of the parser (timerBeetle.py:48-141). */
  function Parse(args: seq<string>): Result<nat>
  {
    if args == [] then Err(MissingInput) else ParseText(Join(args))
  }

  /** The argument loop (timerBeetle.py:67-71). */
  method Concat(args: seq<string>) returns (timeIn: string)
    ensures timeIn == Join(args)
  {
    timeIn := "";
    for i := 0 to |args|
      invariant timeIn == Join(args[..i])
    {
      assert args[..i + 1][..i] == args[..i];
      timeIn := timeIn + args[i];
    }
    assert args[..|args|] == args;
  }

  /** parseTimeInSecs, with the three `sys.exit(1)` paths returned as errors. */
  method ParseTimeInSecs(args: seq<string>) returns (r: Result<nat>)
    ensures r == Parse(args)
  {
    if |args| == 0 {
      return Err(MissingInput);
    }
    var timeIn := Concat(args);
    if IsDigitString(timeIn) {
      return Ok(DigitsValue(timeIn) * 60);
    }
    var lowered := Lower(timeIn);
    var matched := Recognise(lowered);
    if matched.None? {
      return Err(BadInput);
    }
    r := Accumulate(matched.value);
  }

  // ---------------------------------------------------------------------------
  // Properties of the parser

  /** Missing input is reported exactly when there are no tokens. */
  lemma MissingInputIffNoArgs(args: seq<string>)
    ensures Parse(args) == Err(MissingInput) <==> args == []
  {
  }

  /** Several tokens mean the same as their concatenation as one token. */
  lemma ParseJoins(args: seq<string>)
    requires args != []
    ensures Parse(args) == Parse([Join(args)])
  {
    JoinSingle(Join(args));
  }

  lemma JoinSingle(t: string)
    ensures Join([t]) == t
  {
    assert [t][..0] == [];
  }

  /** An all-digit expression is a count of minutes. */
  lemma ParseMinutes(t: string)
    requires IsDigitString(t)
    ensures Parse([t]) == Ok(DigitsValue(t) * 60)
  {
    JoinSingle(t);
  }

  /** Case does not matter: upper-case unit letters are read like lower-case ones. */
  lemma ParseIgnoresCase(t: string)
    ensures Parse([t]) == Parse([Lower(t)])
  {
    JoinSingle(t);
    JoinSingle(Lower(t));
    LowerKeepsDigits(t);
    LowerIdempotent(t);
    if IsDigitString(t) {
      assert Lower(t) == t;
    }
  }

  /** A non-digit expression is rejected as bad input exactly when it is not one to
      four components (after lower-casing). */
  lemma ParseBadInputIff(t: string)
    requires !IsDigitString(t)
    ensures Parse([t]) == Err(BadInput) <==> forall ps :: Render(ps) == Lower(t) ==> !Grammatical(ps)
  {
    JoinSingle(t);
    RecogniseRejects(Lower(t));
  }

  /** A well-formed expression totals its components' seconds when no unit repeats,
      and fails with the repeated-unit error when one does. */
  lemma ParseComponents(ps: seq<Piece>)
    requires Grammatical(ps)
    ensures Distinct(Comps(ps)) ==> Parse([Render(ps)]) == Ok(Sum(Comps(ps)))
    ensures !Distinct(Comps(ps)) ==> Parse([Render(ps)]) == Err(RepeatedUnits)
  {
    JoinSingle(Render(ps));
    RenderNotDigits(ps);
    RenderIsLower(ps);
    RecogniseComplete(ps);
  }

  /** Two expressions with the same components in different orders parse alike. */
  lemma ParseOrderIndependent(ps: seq<Piece>, qs: seq<Piece>)
    requires Grammatical(ps) && Grammatical(qs)
    requires multiset(Comps(ps)) == multiset(Comps(qs))
    ensures Parse([Render(ps)]) == Parse([Render(qs)])
  {
    ParseComponents(ps);
    ParseComponents(qs);
    TotalPermutation(Comps(ps), Comps(qs));
  }

  // ---------------------------------------------------------------------------
  // Building blocks for concrete expressions

  lemma JoinTwo(x: string, y: string)
    ensures Join([x, y]) == x + y
  {
    assert [x, y][..1] == [x];
    JoinSingle(x);
  }

  lemma DigitsValueOne(s: string)
    requires |s| == 1 && AllDigits(s)
    ensures DigitsValue(s) == s[0] as int - '0' as int
  {
    assert s[..0] == [];
  }

  lemma DigitsValueTwo(s: string)
    requires |s| == 2 && AllDigits(s)
    ensures DigitsValue(s) == (s[0] as int - '0' as int) * 10 + (s[1] as int - '0' as int)
  {
    DigitsValueOne(s[..1]);
  }

  lemma RenderOne(p: Piece)
    ensures Render([p]) == Spell(p.comp) + Spaces(p.gap)
  {
    assert [p][1..] == [];
  }

  lemma {:induction false} RenderAppend(a: seq<Piece>, b: seq<Piece>)
    ensures Render(a + b) == Render(a) + Render(b)
  {
    if a != [] {
      assert (a + b)[1..] == a[1..] + b;
      RenderAppend(a[1..], b);
    } else {
      assert a + b == b;
    }
  }

  lemma RenderTwo(a: Piece, b: Piece)
    ensures Render([a, b]) == Spell(a.comp) + Spaces(a.gap) + Spell(b.comp) + Spaces(b.gap)
  {
    RenderOne(a);
    RenderOne(b);
    RenderAppend([a], [b]);
    assert [a] + [b] == [a, b];
  }

  lemma RenderFour(ps: seq<Piece>)
    requires |ps| == 4
    ensures Render(ps) == Render([ps[0], ps[1]]) + Render([ps[2], ps[3]])
  {
    RenderAppend([ps[0], ps[1]], [ps[2], ps[3]]);
    assert ps == [ps[0], ps[1]] + [ps[2], ps[3]];
  }

  lemma SumTwo(a: Component, b: Component)
    ensures Sum([a, b]) == Seconds(a) + Seconds(b)
  {
    assert [a, b][..1] == [a];
    SumOne(a);
  }

  lemma SumFour(a: Component, b: Component, c: Component, d: Component)
    ensures Sum([a, b, c, d]) == Seconds(a) + Seconds(b) + Seconds(c) + Seconds(d)
  {
    assert [a, b, c, d] == [a, b] + [c, d];
    SumAppend([a, b], [c, d]);
    SumTwo(a, b);
    SumTwo(c, d);
  }

  /** A single component is worth its amount times its unit's scale. */
  lemma ParseSingle(t: string, c: Component)
    requires t == Spell(c)
    ensures Parse([t]) == Ok(DigitsValue(c.digits) * Scale(c.unit))
  {
    var ps := [Piece(c, 0)];
    assert Render(ps) == Spell(c) by {
      RenderOne(ps[0]);
      assert Spaces(0) == "";
    }
    ParseComponents(ps);
    assert Comps(ps) == [c];
    SumOne(c);
  }

  /** Two components with different units, each followed by a run of spaces, are
      worth the sum of their seconds. */
  lemma ParseTwo(t: string, a: Component, g: nat, b: Component, h: nat)
    requires a.unit != b.unit
    requires t == Spell(a) + Spaces(g) + Spell(b) + Spaces(h)
    ensures Parse([t]) == Ok(Seconds(a) + Seconds(b))
  {
    var ps := [Piece(a, g), Piece(b, h)];
    assert Render(ps) == t by { RenderTwo(ps[0], ps[1]); }
    assert Distinct(Comps(ps)) by { assert Comps(ps) == [a, b]; }
    assert Sum(Comps(ps)) == Seconds(a) + Seconds(b) by {
      assert Comps(ps) == [a, b];
      SumTwo(a, b);
    }
    ParseComponents(ps);
  }

  /** Two components with the same unit are the repeated-unit error, whatever
      their amounts. */
  lemma ParseRepeated(t: string, a: Component, g: nat, b: Component, h: nat)
    requires a.unit == b.unit
    requires t == Spell(a) + Spaces(g) + Spell(b) + Spaces(h)
    ensures Parse([t]) == Err(RepeatedUnits)
  {
    var ps := [Piece(a, g), Piece(b, h)];
    assert Render(ps) == t by { RenderTwo(ps[0], ps[1]); }
    assert !Distinct(Comps(ps)) by {
      assert Comps(ps)[0].unit == Comps(ps)[1].unit;
    }
    ParseComponents(ps);
  }

  /** Four components with four different units are worth the sum of their seconds. */
  lemma ParseFour(t: string, a: Component, b: Component, c: Component, d: Component)
    requires a.unit != b.unit && a.unit != c.unit && a.unit != d.unit
    requires b.unit != c.unit && b.unit != d.unit && c.unit != d.unit
    requires t == Spell(a) + Spell(b) + Spell(c) + Spell(d)
    ensures Parse([t]) == Ok(Seconds(a) + Seconds(b) + Seconds(c) + Seconds(d))
  {
    var ps := [Piece(a, 0), Piece(b, 0), Piece(c, 0), Piece(d, 0)];
    assert Render(ps) == t by {
      RenderFour(ps);
      RenderTwo(ps[0], ps[1]);
      RenderTwo(ps[2], ps[3]);
      assert Spaces(0) == "";
    }
    assert Comps(ps) == [a, b, c, d];
    assert Distinct(Comps(ps));
    assert Sum(Comps(ps)) == Seconds(a) + Seconds(b) + Seconds(c) + Seconds(d) by {
      SumFour(a, b, c, d);
    }
    ParseComponents(ps);
  }

  /** More than four components are bad input, even with no unit repeated. */
  lemma ParseTooMany(t: string, ps: seq<Piece>)
    requires |ps| > 4 && t == Render(ps)
    ensures Parse([t]) == Err(BadInput)
  {
    ScanComplete(ps);
    RenderNotDigits(ps);
    RenderIsLower(ps);
    JoinSingle(t);
  }

  // ---------------------------------------------------------------------------
  // The examples of the program's own documentation (timerBeetle.py:39-46) and
  // the error paths

  lemma ExampleMinutes()
    ensures Parse(["25"]) == Ok(1500)
  {
    DigitsValueTwo("25");
    ParseMinutes("25");
  }

  lemma ExampleZero()
    ensures Parse(["0"]) == Ok(0)
  {
    DigitsValueOne("0");
    ParseMinutes("0");
  }

  lemma ExampleSplitMinutes()
    ensures Parse(["1", "30"]) == Ok(7800)
  {
    JoinTwo("1", "30");
    assert "1" + "30" == "130";
    ParseJoins(["1", "30"]);
    assert "130"[..2] == "13";
    DigitsValueTwo("13");
    ParseMinutes("130");
  }

  lemma ExampleEmpty()
    ensures Parse([""]) == Err(BadInput)
  {
    JoinSingle("");
    assert Lower("") == "";
  }

  lemma ExampleMinutesWithUnit()
    ensures Parse(["23m"]) == Ok(1380)
  {
    var m := Component("23", Minute);
    assert Seconds(m) == 1380 by { DigitsValueTwo("23"); }
    ParseSingle("23m", m);
  }

  lemma ExampleHours()
    ensures Parse(["2h"]) == Ok(7200)
  {
    var h := Component("2", Hour);
    assert Seconds(h) == 7200 by { DigitsValueOne("2"); }
    ParseSingle("2h", h);
  }

  lemma ExampleSeconds()
    ensures Parse(["6s"]) == Ok(6)
  {
    var s := Component("6", Second);
    assert Seconds(s) == 6 by { DigitsValueOne("6"); }
    ParseSingle("6s", s);
  }

  lemma ExampleDay()
    ensures Parse(["1d"]) == Ok(86400)
  {
    var d := Component("1", Day);
    assert Seconds(d) == 86400 by { DigitsValueOne("1"); }
    ParseSingle("1d", d);
  }

  lemma ExampleHourAndHalf()
    ensures Parse(["1h30m"]) == Ok(5400)
  {
    var h, m := Component("1", Hour), Component("30", Minute);
    assert Seconds(h) == 3600 by { DigitsValueOne("1"); }
    assert Seconds(m) == 1800 by { DigitsValueTwo("30"); }
    assert Spaces(0) == "";
    ParseTwo("1h30m", h, 0, m, 0);
  }

  /** The documented form: one quoted token with a space between the components. */
  lemma ExampleQuotedHourAndHalf()
    ensures Parse(["1h 30m"]) == Ok(5400)
  {
    var h, m := Component("1", Hour), Component("30", Minute);
    assert Seconds(h) == 3600 by { DigitsValueOne("1"); }
    assert Seconds(m) == 1800 by { DigitsValueTwo("30"); }
    assert Spaces(1) == " " && Spaces(0) == "";
    ParseTwo("1h 30m", h, 1, m, 0);
  }

  lemma ExampleFullExpression()
    ensures Parse(["1d12h30m30s"]) == Ok(131430)
  {
    var d, h := Component("1", Day), Component("12", Hour);
    var m, s := Component("30", Minute), Component("30", Second);
    assert Seconds(d) + Seconds(h) + Seconds(m) + Seconds(s) == 131430 by {
      DigitsValueOne("1");
      DigitsValueTwo("12");
      DigitsValueTwo("30");
    }
    assert "1d12h30m30s" == Spell(d) + Spell(h) + Spell(m) + Spell(s);
    ParseFour("1d12h30m30s", d, h, m, s);
  }

  /** The components may come in any order ("30m1h" reads like "1h30m"). */
  lemma ExampleReordered()
    ensures Parse(["30m1h"]) == Ok(5400)
  {
    var h, m := Component("1", Hour), Component("30", Minute);
    assert Seconds(h) == 3600 by { DigitsValueOne("1"); }
    assert Seconds(m) == 1800 by { DigitsValueTwo("30"); }
    assert Spaces(0) == "";
    ParseTwo("30m1h", m, 0, h, 0);
  }

  /** Separate tokens are joined ("1h 30m" on the command line reads like "1h30m"). */
  lemma ExampleSeparateTokens()
    ensures Parse(["1h", "30m"]) == Ok(5400)
  {
    JoinTwo("1h", "30m");
    assert "1h" + "30m" == "1h30m";
    ParseJoins(["1h", "30m"]);
    ExampleHourAndHalf();
  }

  /** Spaces after a component are allowed inside one quoted token. */
  lemma ExampleSpaced()
    ensures Parse(["1h 30m "]) == Ok(5400)
  {
    var h, m := Component("1", Hour), Component("30", Minute);
    assert Seconds(h) == 3600 by { DigitsValueOne("1"); }
    assert Seconds(m) == 1800 by { DigitsValueTwo("30"); }
    assert Spaces(1) == " ";
    ParseTwo("1h 30m ", h, 1, m, 1);
  }

  /** Upper-case unit letters are accepted. */
  lemma ExampleUpperCase()
    ensures Parse(["1H30M"]) == Ok(5400)
  {
    assert Parse(["1H30M"]) == Parse(["1h30m"]) by {
      assert Lower("1H30M") == "1h30m" by {
        assert LowerChar('H') == 'h' && LowerChar('M') == 'm';
        assert forall i | 0 <= i < 5 :: Lower("1H30M")[i] == LowerChar("1H30M"[i]);
      }
      ParseIgnoresCase("1H30M");
    }
    ExampleHourAndHalf();
  }

  lemma ExampleRepeatedUnit()
    ensures Parse(["1h1h"]) == Err(RepeatedUnits)
  {
    var h := Component("1", Hour);
    assert Spaces(0) == "";
    ParseRepeated("1h1h", h, 0, h, 0);
  }
  lemma ExampleNotAnExpression()
    ensures Parse(["abc"]) == Err(BadInput)
    ensures Parse([" 1h"]) == Err(BadInput)
  {
    JoinSingle("abc");
    assert !IsDigit("abc"[0]);
    assert Lower("abc") == "abc";
    assert DigitRun("abc") == 0;
    JoinSingle(" 1h");
    assert !IsDigit(" 1h"[0]);
    assert Lower(" 1h") == " 1h";
    assert DigitRun(" 1h") == 0;
  }

  lemma ExampleFiveComponents()
    ensures Parse(["1d1h1m1s1s"]) == Err(BadInput)
  {
    var one := Component("1", Second);
    var five := [Piece(Component("1", Day), 0), Piece(Component("1", Hour), 0),
                 Piece(Component("1", Minute), 0), Piece(one, 0), Piece(one, 0)];
    assert Render(five) == "1d1h1m1s1s" by {
      RenderFour(five[..4]);
      RenderTwo(five[0], five[1]);
      RenderTwo(five[2], five[3]);
      RenderOne(five[4]);
      RenderAppend(five[..4], [five[4]]);
      assert five == five[..4] + [five[4]];
      assert Spaces(0) == "";
    }
    ParseTooMany("1d1h1m1s1s", five);
  }
}
