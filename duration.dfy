/** The readable duration format of the report ("1h 5m 30s", "45s", "2h", "0s"):
    the formatter the analyzer runs, the specification it is proved against, and
    a parser that reads a formatted duration back into seconds. */
module Duration {
  import opened Records
  import opened Decimal

  /** One emitted component: an amount and its unit letter 'h', 'm' or 's'. */
  datatype Part = Part(amount: nat, unit: char)

  /** Seconds per unit. */
  function Weight(unit: char): nat {
    if unit == 'h' then 3600 else if unit == 'm' then 60 else if unit == 's' then 1 else 0
  }

  predicate IsUnit(c: char) {
    c == 'h' || c == 'm' || c == 's'
  }

  /** The number of seconds a list of components denotes. */
  function Value(ps: seq<Part>): nat {
    if ps == [] then 0 else ps[0].amount * Weight(ps[0].unit) + Value(ps[1..])
  }

  /** The amount given for `unit`, 0 when no component carries it. */
  function AmountOf(ps: seq<Part>, unit: char): nat {
    if ps == [] then 0
    else (if ps[0].unit == unit then ps[0].amount else 0) + AmountOf(ps[1..], unit)
  }

  predicate HasUnit(ps: seq<Part>, unit: char) {
    exists i :: 0 <= i < |ps| && ps[i].unit == unit
  }

  /** The components emitted for the given hours, minutes and seconds: hours
      and minutes only when non-zero, seconds when non-zero or when nothing
      else was emitted. */
  function Emit(hours: nat, minutes: nat, seconds: nat): seq<Part> {
    if hours > 0 then
      if minutes > 0 then
        if seconds > 0 then [Part(hours, 'h'), Part(minutes, 'm'), Part(seconds, 's')]
        else [Part(hours, 'h'), Part(minutes, 'm')]
      else if seconds > 0 then [Part(hours, 'h'), Part(seconds, 's')]
      else [Part(hours, 'h')]
    else if minutes > 0 then
      if seconds > 0 then [Part(minutes, 'm'), Part(seconds, 's')] else [Part(minutes, 'm')]
    else [Part(seconds, 's')]
  }

  lemma ValueOfThree(a: Part, b: Part, c: Part)
    ensures Value([a]) == a.amount * Weight(a.unit)
    ensures Value([a, b]) == a.amount * Weight(a.unit) + b.amount * Weight(b.unit)
    ensures Value([a, b, c]) == a.amount * Weight(a.unit) + b.amount * Weight(b.unit) + c.amount * Weight(c.unit)
  {
    assert [a, b, c][1..] == [b, c];
    assert [a, b][1..] == [b];
    assert [b, c][1..] == [c];
    assert Value([c]) == c.amount * Weight(c.unit) + Value([]);
    assert Value([b]) == b.amount * Weight(b.unit) + Value([]);
    assert Value([b, c]) == b.amount * Weight(b.unit) + Value([c]);
  }

  lemma AmountOfThree(a: Part, b: Part, c: Part, u: char)
    ensures AmountOf([a], u) == (if a.unit == u then a.amount else 0)
    ensures AmountOf([a, b], u) == (if a.unit == u then a.amount else 0) + (if b.unit == u then b.amount else 0)
    ensures AmountOf([a, b, c], u) == (if a.unit == u then a.amount else 0) + (if b.unit == u then b.amount else 0) + (if c.unit == u then c.amount else 0)
  {
    assert [a, b, c][1..] == [b, c];
    assert [a, b][1..] == [b];
    assert [b, c][1..] == [c];
    assert AmountOf([c], u) == (if c.unit == u then c.amount else 0) + AmountOf([], u);
    assert AmountOf([b], u) == (if b.unit == u then b.amount else 0) + AmountOf([], u);
    assert AmountOf([b, c], u) == (if b.unit == u then b.amount else 0) + AmountOf([c], u);
  }

  /** Emitting loses nothing: the components add up to the seconds given,
      and each unit carries its own amount. */
  lemma EmitValue(hours: nat, minutes: nat, seconds: nat)
    ensures Value(Emit(hours, minutes, seconds)) == hours * 3600 + minutes * 60 + seconds
    ensures AmountOf(Emit(hours, minutes, seconds), 'h') == hours
    ensures AmountOf(Emit(hours, minutes, seconds), 'm') == minutes
    ensures AmountOf(Emit(hours, minutes, seconds), 's') == seconds
  {
    var h, m, s := Part(hours, 'h'), Part(minutes, 'm'), Part(seconds, 's');
    var ps := Emit(hours, minutes, seconds);
    if hours > 0 && minutes > 0 {
      ValueOfThree(h, m, s);
      AmountOfThree(h, m, s, 'h');
      AmountOfThree(h, m, s, 'm');
      AmountOfThree(h, m, s, 's');
    } else if hours > 0 {
      ValueOfThree(h, s, s);
      AmountOfThree(h, s, s, 'h');
      AmountOfThree(h, s, s, 'm');
      AmountOfThree(h, s, s, 's');
    } else if minutes > 0 {
      ValueOfThree(m, s, s);
      AmountOfThree(m, s, s, 'h');
      AmountOfThree(m, s, s, 'm');
      AmountOfThree(m, s, s, 's');
    } else {
      ValueOfThree(s, s, s);
      AmountOfThree(s, s, s, 'h');
      AmountOfThree(s, s, s, 'm');
      AmountOfThree(s, s, s, 's');
    }
  }

  /** The components emitted for `total` seconds: hours = total div 3600,
      then minutes and seconds by dividing the remainder by 60. */
  function Parts(total: nat): seq<Part> {
    var hours, remainder := total / 3600, total % 3600;
    var minutes, seconds := remainder / 60, remainder % 60;
    Emit(hours, minutes, seconds)
  }

  /** What the emitted components are: one to three of them, in the order
      h, m, s with no unit twice, adding up to `total`; every emitted amount
      is non-zero except the lone "0s" of a zero duration; minutes and seconds
      are below 60. */
  lemma PartsFacts(total: nat)
    ensures var ps := Parts(total);
      && 1 <= |ps| <= 3
      && Value(ps) == total
      && (forall i :: 0 <= i < |ps| ==> IsUnit(ps[i].unit))
      && (forall i, j :: 0 <= i < j < |ps| ==> Weight(ps[i].unit) > Weight(ps[j].unit))
      && (forall i :: 0 <= i < |ps| && ps[i].unit != 'h' ==> ps[i].amount < 60)
      && (total != 0 ==> forall i :: 0 <= i < |ps| ==> ps[i].amount > 0)
      && (total == 0 <==> ps == [Part(0, 's')])
  {
    var hours, remainder := total / 3600, total % 3600;
    var minutes, seconds := remainder / 60, remainder % 60;
    assert total == hours * 3600 + minutes * 60 + seconds;
    assert Parts(total) == Emit(hours, minutes, seconds);
    EmitValue(hours, minutes, seconds);
  }

  /** Hours appear exactly from one hour on, minutes exactly when the
      remainder holds a whole minute, seconds exactly when there are odd
      seconds or nothing else was emitted. */
  lemma PartsUnits(total: nat)
    ensures HasUnit(Parts(total), 'h') <==> total >= 3600
    ensures HasUnit(Parts(total), 'm') <==> total % 3600 >= 60
    ensures HasUnit(Parts(total), 's') <==> total % 60 != 0 || total < 60
  {
    var hours, remainder := total / 3600, total % 3600;
    var minutes, seconds := remainder / 60, remainder % 60;
    assert seconds == total % 60;
    var ps := Emit(hours, minutes, seconds);
    assert Parts(total) == ps;
    assert hours > 0 <==> total >= 3600;
    assert minutes > 0 <==> remainder >= 60;
    assert HasUnit(ps, 'h') ==> ps[0].unit == 'h';
    assert HasUnit(ps, 'm') ==> ps[0].unit == 'm' || ps[1].unit == 'm';
    if hours > 0 {
      assert ps[0].unit == 'h';
    }
    if minutes > 0 {
      var k := if hours > 0 then 1 else 0;
      assert ps[k].unit == 'm';
    }
    assert total < 60 <==> hours == 0 && minutes == 0;
    assert ps[|ps| - 1].unit == 's' <==> seconds > 0 || (hours == 0 && minutes == 0);
    assert HasUnit(ps, 's') ==> ps[|ps| - 1].unit == 's';
  }

  /** One component as the source prints it: f"{amount}{unit}". */
  function RenderPart(p: Part): (s: string)
    ensures |s| >= 2 && s[|s| - 1] == p.unit && AllDigits(s[..|s| - 1])
  {
    NatToString(p.amount) + [p.unit]
  }

  function RenderAll(ps: seq<Part>): (ss: seq<string>)
    ensures |ss| == |ps|
    ensures forall i :: 0 <= i < |ps| ==> ss[i] == RenderPart(ps[i])
  {
    if ps == [] then [] else [RenderPart(ps[0])] + RenderAll(ps[1..])
  }

  lemma RenderThree(a: Part, b: Part, c: Part)
    ensures RenderAll([a]) == [RenderPart(a)]
    ensures RenderAll([a, b]) == [RenderPart(a), RenderPart(b)]
    ensures RenderAll([a, b, c]) == [RenderPart(a), RenderPart(b), RenderPart(c)]
  {
  }

  lemma {:induction false} RenderAllSnoc(ps: seq<Part>, p: Part)
    ensures RenderAll(ps + [p]) == RenderAll(ps) + [RenderPart(p)]
  {
    if ps != [] {
      assert (ps + [p])[1..] == ps[1..] + [p];
      RenderAllSnoc(ps[1..], p);
    }
  }

  /** " ".join(ss) */
  function JoinSpace(ss: seq<string>): (s: string)
    ensures ss != [] ==> |s| >= |ss[0]|
  {
    if ss == [] then "" else if |ss| == 1 then ss[0] else ss[0] + " " + JoinSpace(ss[1..])
  }

  /** The readable form of a duration cell. A missing (null or NaN) duration
      reads as "0s", like zero seconds. */
  function Readable(d: Option<nat>): string {
    JoinSpace(RenderAll(Parts(match d case None => 0 case Some(total) => total)))
  }

  /** The formatter: early "0s" for a missing or zero duration, then the
      components appended one by one and joined with single spaces. */
  method FormatDuration(totalSeconds: Option<nat>) returns (text: string)
    ensures text == Readable(totalSeconds)
  {
    if totalSeconds.None? {
      assert Parts(0) == [Part(0, 's')];
      return "0s";
    }
    var total := totalSeconds.value;
    if total == 0 {
      assert Parts(0) == [Part(0, 's')];
      return "0s";
    }
    var hours, remainder := total / 3600, total % 3600;
    var minutes, seconds := remainder / 60, remainder % 60;
    var parts: seq<string> := [];
    ghost var emitted: seq<Part> := [];
    if hours > 0 {
      RenderAllSnoc(emitted, Part(hours, 'h'));
      parts, emitted := parts + [NatToString(hours) + "h"], emitted + [Part(hours, 'h')];
    }
    if minutes > 0 {
      RenderAllSnoc(emitted, Part(minutes, 'm'));
      parts, emitted := parts + [NatToString(minutes) + "m"], emitted + [Part(minutes, 'm')];
    }
    assert parts == RenderAll(emitted);
    if seconds > 0 || parts == [] {
      RenderAllSnoc(emitted, Part(seconds, 's'));
      parts, emitted := parts + [NatToString(seconds) + "s"], emitted + [Part(seconds, 's')];
    }
    assert emitted == Emit(hours, minutes, seconds);
    assert Parts(total) == emitted;
    text := JoinSpace(parts);
  }

  // ---------------------------------------------------------------------
  // Reading a formatted duration back

  /** str.split(" "): the pieces between single spaces. */
  function SplitSpace(s: string): (pieces: seq<string>)
    ensures |pieces| >= 1
    decreases |s|
  {
    if s == [] then [""]
    else
      var rest := SplitSpace(s[1..]);
      if s[0] == ' ' then [""] + rest else [[s[0]] + rest[0]] + rest[1..]
  }

  /** A piece "<digits><unit>" read as a component. */
  function ParsePart(piece: string): Option<Part> {
    if |piece| >= 2 && IsUnit(piece[|piece| - 1]) && AllDigits(piece[..|piece| - 1])
    then Some(Part(ParseDigits(piece[..|piece| - 1]), piece[|piece| - 1]))
    else None
  }

  function ParseParts(pieces: seq<string>): Option<seq<Part>> {
    if pieces == [] then Some([])
    else match (ParsePart(pieces[0]), ParseParts(pieces[1..]))
      case (Some(p), Some(ps)) => Some([p] + ps)
      case _ => None
  }

  /** The number of seconds a readable duration stands for, if it is one. */
  function ParseReadable(text: string): Option<nat> {
    match ParseParts(SplitSpace(text))
    case None => None
    case Some(ps) => Some(Value(ps))
  }

  lemma {:induction false} SplitNoSpace(a: string)
    requires ' ' !in a
    ensures SplitSpace(a) == [a]
    decreases |a|
  {
    if a != [] {
      SplitNoSpace(a[1..]);
      assert [a[0]] + a[1..] == a;
    }
  }

  lemma {:induction false} SplitAfter(a: string, b: string)
    requires ' ' !in a
    ensures SplitSpace(a + " " + b) == [a] + SplitSpace(b)
    decreases |a|
  {
    if a == [] {
      assert a + " " + b == [' '] + b;
      assert (a + " " + b)[1..] == b;
    } else {
      assert (a + " " + b)[1..] == a[1..] + " " + b;
      SplitAfter(a[1..], b);
      assert [a[0]] + a[1..] == a;
    }
  }

  /** Splitting a join of space-free pieces gives the pieces back. */
  lemma {:induction false} SplitJoin(ss: seq<string>)
    requires ss != []
    requires forall i :: 0 <= i < |ss| ==> ' ' !in ss[i]
    ensures SplitSpace(JoinSpace(ss)) == ss
  {
    if |ss| == 1 {
      SplitNoSpace(ss[0]);
    } else {
      SplitAfter(ss[0], JoinSpace(ss[1..]));
      SplitJoin(ss[1..]);
    }
  }

  lemma ParseRenderPart(p: Part)
    requires IsUnit(p.unit)
    ensures ParsePart(RenderPart(p)) == Some(p)
  {
    var s := RenderPart(p);
    assert s[..|s| - 1] == NatToString(p.amount);
    ParseNatToString(p.amount);
  }

  lemma {:induction false} ParseRenderAll(ps: seq<Part>)
    requires forall i :: 0 <= i < |ps| ==> IsUnit(ps[i].unit)
    ensures ParseParts(RenderAll(ps)) == Some(ps)
  {
    if ps != [] {
      ParseRenderPart(ps[0]);
      assert [ps[0]] + ps[1..] == ps;
      assert RenderAll(ps)[1..] == RenderAll(ps[1..]);
      ParseRenderAll(ps[1..]);
    }
  }

  lemma RenderedHasNoSpace(ps: seq<Part>)
    requires forall i :: 0 <= i < |ps| ==> IsUnit(ps[i].unit)
    ensures forall i :: 0 <= i < |ps| ==> ' ' !in RenderAll(ps)[i]
  {
    forall i | 0 <= i < |ps| ensures ' ' !in RenderAll(ps)[i] {
      var s := RenderPart(ps[i]);
      forall k | 0 <= k < |s| ensures s[k] != ' ' {
        if k < |s| - 1 {
          assert IsDigit(s[..|s| - 1][k]);
        }
      }
    }
  }

  /** The text reads back as exactly the components emitted, so it
      reconstructs the duration: h * 3600 + m * 60 + s == total. */
  lemma ReadableRoundTrip(total: nat)
    ensures ParseParts(SplitSpace(Readable(Some(total)))) == Some(Parts(total))
    ensures ParseReadable(Readable(Some(total))) == Some(total)
  {
    var ps := Parts(total);
    PartsFacts(total);
    RenderedHasNoSpace(ps);
    SplitJoin(RenderAll(ps));
    ParseRenderAll(ps);
  }

  /** Whatever the cell holds, the readable duration is never empty. */
  lemma ReadableNeverEmpty(d: Option<nat>)
    ensures Readable(d) != []
  {
    PartsFacts(match d case None => 0 case Some(total) => total);
  }

  /** Different durations never read the same. */
  lemma ReadableInjective(a: nat, b: nat)
    ensures Readable(Some(a)) == Readable(Some(b)) ==> a == b
  {
    ReadableRoundTrip(a);
    ReadableRoundTrip(b);
  }

  lemma ReadableOfNothing()
    ensures Readable(Some(0)) == "0s"
    ensures Readable(None) == "0s"
  {
    var zero := Part(0, 's');
    assert Parts(0) == [zero];
    RenderThree(zero, zero, zero);
    assert RenderPart(zero) == "0s";
  }

  lemma ParseZeroText()
    ensures ParseReadable("0s") == Some(0)
  {
    var zero := Part(0, 's');
    assert RenderPart(zero) == "0s";
    RenderThree(zero, zero, zero);
    ParseRenderAll([zero]);
    SplitNoSpace("0s");
  }

  /** "0s" is the canonical zero: it is produced for 0 and for a missing
      duration, and for nothing else. */
  lemma ReadableZero(total: nat)
    ensures Readable(Some(total)) == "0s" <==> total == 0
    ensures Readable(None) == "0s"
  {
    ReadableOfNothing();
    if Readable(Some(total)) == "0s" {
      ReadableRoundTrip(total);
      ParseZeroText();
    }
  }

  /** The components of the text are h = total div 3600,
      m = (total mod 3600) div 60 and s = total mod 60. */
  lemma PartsComponents(total: nat)
    ensures AmountOf(Parts(total), 'h') == total / 3600
    ensures AmountOf(Parts(total), 'm') == (total % 3600) / 60
    ensures AmountOf(Parts(total), 's') == total % 60
  {
    EmitValue(total / 3600, (total % 3600) / 60, (total % 3600) % 60);
  }

  /** Worked examples of the format: whole hours, all three components,
      minutes and seconds, seconds alone. */
  lemma ReadableTwoHours()
    ensures Readable(Some(7200)) == "2h"
  {
    var h := Part(2, 'h');
    assert Parts(7200) == [h];
    RenderThree(h, h, h);
    assert RenderPart(h) == "2h";
  }

  lemma ReadableHoursMinutesSeconds()
    ensures Readable(Some(3930)) == "1h 5m 30s"
  {
    var h, m, s := Part(1, 'h'), Part(5, 'm'), Part(30, 's');
    assert Parts(3930) == [h, m, s];
    RenderThree(h, m, s);
    assert NatToString(30) == "30";
    assert RenderPart(h) == "1h" && RenderPart(m) == "5m" && RenderPart(s) == "30s";
    assert JoinSpace(["5m", "30s"]) == "5m 30s";
  }

  lemma ReadableMinuteSeconds()
    ensures Readable(Some(65)) == "1m 5s"
  {
    var m, s := Part(1, 'm'), Part(5, 's');
    assert Parts(65) == [m, s];
    RenderThree(m, s, s);
    assert RenderPart(m) == "1m" && RenderPart(s) == "5s";
    assert JoinSpace(["5s"]) == "5s";
    assert JoinSpace(["1m", "5s"]) == "1m" + " " + "5s";
  }

  lemma ReadableSecondsOnly()
    ensures Readable(Some(45)) == "45s"
  {
    var s := Part(45, 's');
    assert Parts(45) == [s];
    RenderThree(s, s, s);
    assert NatToString(45) == "45";
    assert RenderPart(s) == "45s";
  }
}
