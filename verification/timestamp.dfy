/**
 The canonical timestamp of src/vault/time.rs: chrono's
 `%Y-%m-%d_%H-%M-%S%.9f`, e.g. `2023-05-20_06-19-41.386912900`. Every field
 is zero-padded to a fixed width, which is what makes string order equal to
 chronological order and what lets the rotation engine bucket files by a
 prefix of their name.

 The format is described once, as a layout of fixed-width number slots and
 literal characters; rendering, reading and ordering are proved about any
 layout and then specialised to the one `FORMAT` uses.
 */
module Timestamp {
  import opened Options
  import opened Text

  /** One field of a fixed-width format: the literal text printed before it,
      then a zero-padded decimal number of the given width. */
  datatype Slot = Slot(lead: string, width: nat)

  /** `FORMAT` (time.rs line 5): `%Y` four digits, then `-%m -%d _%H -%M -%S`
      two digits each, then `%.9f`, a dot and nine digits of nanoseconds. */
  const Layout: seq<Slot> := [
    Slot("", 4), Slot("-", 2), Slot("-", 2), Slot("_", 2), Slot("-", 2), Slot("-", 2), Slot(".", 9)]

  /** The shape of every formatted instant, '#' standing for one digit. */
  const Template: string := "####-##-##_##-##-##.#########"

  /** The values fit their fields: each is below ten to its field's width. */
  predicate FitsWidths(layout: seq<Slot>, vals: seq<nat>) {
    && |vals| == |layout|
    && forall i :: 0 <= i < |vals| ==> vals[i] < Pow10(layout[i].width)
  }

  lemma FitsWidthsCons(layout: seq<Slot>, vals: seq<nat>)
    requires |layout| > 0 && |vals| == |layout|
    ensures FitsWidths(layout, vals) <==>
      vals[0] < Pow10(layout[0].width) && FitsWidths(layout[1..], vals[1..])
  {
    if vals[0] < Pow10(layout[0].width) && FitsWidths(layout[1..], vals[1..]) {
      forall i | 0 <= i < |vals|
        ensures vals[i] < Pow10(layout[i].width)
      {
        if i > 0 {
          assert vals[i] == vals[1..][i - 1] && layout[i] == layout[1..][i - 1];
        }
      }
    }
    if FitsWidths(layout, vals) {
      assert forall i :: 0 <= i < |vals| - 1 ==> vals[1..][i] == vals[i + 1] && layout[1..][i] == layout[i + 1];
    }
  }

  /** A run of `w` placeholders. */
  function Hashes(w: nat): (p: string)
    ensures |p| == w && forall i :: 0 <= i < w ==> p[i] == '#'
  {
    seq(w, _ => '#')
  }

  /** The template a layout renders to. */
  function Shape(layout: seq<Slot>): string {
    if layout == [] then [] else layout[0].lead + Hashes(layout[0].width) + Shape(layout[1..])
  }

  /** The string a layout prints for the given field values. */
  function Render(layout: seq<Slot>, vals: seq<nat>): string
    requires |vals| == |layout|
  {
    if layout == [] then []
    else layout[0].lead + Pad(vals[0], layout[0].width) + Render(layout[1..], vals[1..])
  }

  /** Reads the field values back, failing on the first character that does
      not fit the layout and on anything left over at the end. */
  function Read(layout: seq<Slot>, s: string): (r: Option<seq<nat>>)
    ensures r.Some? ==> |r.value| == |layout|
  {
    if layout == [] then (if s == [] then Some([]) else None)
    else
      var lead, w := layout[0].lead, layout[0].width;
      if |s| >= |lead| + w && s[..|lead|] == lead && AllDigits(s[|lead|..|lead| + w]) then
        match Read(layout[1..], s[|lead| + w..])
        case Some(vs) => Some([ValueOf(s[|lead|..|lead| + w])] + vs)
        case None => None
      else None
  }

  lemma FitsItself(s: string)
    requires forall i :: 0 <= i < |s| ==> s[i] != '#'
    ensures Fits(s, s)
  {
    if |s| > 0 {
      FitsItself(s[1..]);
    }
  }

  /** Every rendering has the layout's shape. */
  lemma {:induction false} RenderFits(layout: seq<Slot>, vals: seq<nat>)
    requires |vals| == |layout|
    requires forall i, k :: 0 <= i < |layout| && 0 <= k < |layout[i].lead| ==> layout[i].lead[k] != '#'
    ensures Fits(Render(layout, vals), Shape(layout))
  {
    if layout != [] {
      var lead, w := layout[0].lead, layout[0].width;
      RenderFits(layout[1..], vals[1..]);
      FitsItself(lead);
      FitsDigits(Pad(vals[0], w), Hashes(w));
      FitsConcat(lead, lead, Pad(vals[0], w), Hashes(w));
      FitsConcat(lead + Pad(vals[0], w), lead + Hashes(w), Render(layout[1..], vals[1..]), Shape(layout[1..]));
    }
  }

  /** Reading a rendering gives back the values it was rendered from. */
  lemma {:induction false} ReadRender(layout: seq<Slot>, vals: seq<nat>)
    requires FitsWidths(layout, vals)
    ensures Read(layout, Render(layout, vals)) == Some(vals)
  {
    if layout != [] {
      var lead, w := layout[0].lead, layout[0].width;
      var s := Render(layout, vals);
      var p := Pad(vals[0], w);
      assert s == lead + p + Render(layout[1..], vals[1..]);
      assert s[..|lead|] == lead;
      assert s[|lead|..|lead| + w] == p;
      assert s[|lead| + w..] == Render(layout[1..], vals[1..]);
      FitsWidthsCons(layout, vals);
      ReadRender(layout[1..], vals[1..]);
      PadValue(vals[0], w);
      assert vals == [vals[0]] + vals[1..];
    }
  }

  /** Whatever `Read` accepts, it accepts as the rendering of the values it
      returns, and those values fit their fields. */
  lemma {:induction false} RenderRead(layout: seq<Slot>, s: string)
    requires Read(layout, s).Some?
    ensures FitsWidths(layout, Read(layout, s).value)
    ensures Render(layout, Read(layout, s).value) == s
  {
    if layout != [] {
      var lead, w := layout[0].lead, layout[0].width;
      var vs := Read(layout, s).value;
      var digits := s[|lead|..|lead| + w];
      var rest := s[|lead| + w..];
      ReadStep(layout, s);
      RenderRead(layout[1..], rest);
      ValuePad(digits);
      assert |digits| == w;
      FitsWidthsCons(layout, vs);
      assert s == s[..|lead|] + digits + rest;
    }
  }

  /** What a successful `Read` found in front of the rest of the string. */
  lemma ReadStep(layout: seq<Slot>, s: string)
    requires layout != [] && Read(layout, s).Some?
    ensures var lead, w := layout[0].lead, layout[0].width;
      && |s| >= |lead| + w && s[..|lead|] == lead && AllDigits(s[|lead|..|lead| + w])
      && Read(layout[1..], s[|lead| + w..]).Some?
      && Read(layout, s).value == [ValueOf(s[|lead|..|lead| + w])] + Read(layout[1..], s[|lead| + w..]).value
  {
  }

  /** Lexicographic order of equally long number sequences. */
  predicate NatsLess(a: seq<nat>, b: seq<nat>)
    requires |a| == |b|
  {
    |a| > 0 && (a[0] < b[0] || (a[0] == b[0] && NatsLess(a[1..], b[1..])))
  }

  /** A common lead does not affect the comparison; the field decides
      first, the remainder only when the fields agree. */
  lemma LeadFieldOrder(lead: string, pa: string, pb: string, ra: string, rb: string)
    requires |pa| == |pb|
    ensures Less(lead + pa + ra, lead + pb + rb) <==> Less(pa, pb) || (pa == pb && Less(ra, rb))
  {
    LessAppend(lead, lead, pa + ra, pb + rb);
    LessIrreflexive(lead);
    assert lead + pa + ra == lead + (pa + ra) && lead + pb + rb == lead + (pb + rb);
    LessAppend(pa, pb, ra, rb);
  }

  /** Renderings compare as strings exactly as their values compare
      field by field. */
  lemma {:induction false} RenderOrder(layout: seq<Slot>, a: seq<nat>, b: seq<nat>)
    requires FitsWidths(layout, a) && FitsWidths(layout, b)
    ensures Less(Render(layout, a), Render(layout, b)) <==> NatsLess(a, b)
  {
    if layout == [] {
    } else {
      var lead, w := layout[0].lead, layout[0].width;
      FitsWidthsCons(layout, a);
      FitsWidthsCons(layout, b);
      RenderOrder(layout[1..], a[1..], b[1..]);
      var ra, rb := Render(layout[1..], a[1..]), Render(layout[1..], b[1..]);
      var pa, pb := Pad(a[0], w), Pad(b[0], w);
      LeadFieldOrder(lead, pa, pb, ra, rb);
      PadLess(a[0], b[0], w);
      if pa == pb {
        PadInjective(a[0], b[0], w);
      }
    }
  }

  /** The number of characters a layout prints. */
  function Span(layout: seq<Slot>): nat {
    if layout == [] then 0 else |layout[0].lead| + layout[0].width + Span(layout[1..])
  }

  lemma {:induction false} RenderLength(layout: seq<Slot>, vals: seq<nat>)
    requires |vals| == |layout|
    ensures |Render(layout, vals)| == Span(layout)
  {
    if layout != [] {
      RenderLength(layout[1..], vals[1..]);
    }
  }

  /** Rendering the first `n` fields and then the rest prints the whole. */
  lemma {:induction false} RenderSplit(layout: seq<Slot>, vals: seq<nat>, n: nat)
    requires |vals| == |layout| && n <= |layout|
    ensures Render(layout, vals) == Render(layout[..n], vals[..n]) + Render(layout[n..], vals[n..])
  {
    if n > 0 {
      RenderSplit(layout[1..], vals[1..], n - 1);
      assert layout[..n][1..] == layout[1..][..n - 1] && vals[..n][1..] == vals[1..][..n - 1];
      assert layout[1..][n - 1..] == layout[n..] && vals[1..][n - 1..] == vals[n..];
    } else {
      assert layout[..0] == [] && layout[0..] == layout && vals[0..] == vals;
    }
  }

  lemma FitsWidthsPrefix(layout: seq<Slot>, vals: seq<nat>, n: nat)
    requires FitsWidths(layout, vals) && n <= |layout|
    ensures FitsWidths(layout[..n], vals[..n])
  {
  }

  /** Two number sequences in order are in order, or equal, on every
      common prefix. */
  lemma {:induction false} NatsLessPrefix(a: seq<nat>, b: seq<nat>, n: nat)
    requires |a| == |b| && n <= |a|
    requires NatsLess(a, b)
    ensures NatsLess(a[..n], b[..n]) || a[..n] == b[..n]
  {
    if n > 0 && a[0] == b[0] {
      NatsLessPrefix(a[1..], b[1..], n - 1);
      assert a[..n][1..] == a[1..][..n - 1] && b[..n][1..] == b[1..][..n - 1];
      if a[1..][..n - 1] == b[1..][..n - 1] {
        assert a[..n] == [a[0]] + a[1..][..n - 1];
        assert b[..n] == [b[0]] + b[1..][..n - 1];
      }
    }
  }

  /** A UTC instant broken into the fields the format prints. */
  datatype Instant = Instant(year: nat, month: nat, day: nat, hour: nat, minute: nat, second: nat, nanos: nat)

  predicate IsLeapYear(y: nat) {
    (y % 4 == 0 && y % 100 != 0) || y % 400 == 0
  }

  /** Days of month `m` (1..12) of the proleptic Gregorian year `y`. */
  function DaysIn(y: nat, m: nat): nat {
    if m == 2 then (if IsLeapYear(y) then 29 else 28)
    else if m == 4 || m == 6 || m == 9 || m == 11 then 30
    else 31
  }

  /** An instant chrono can represent, restricted to the four-digit years the
      format prints without a sign, and without leap seconds. */
  predicate Valid(t: Instant) {
    && t.year <= 9999
    && 1 <= t.month <= 12
    && 1 <= t.day <= DaysIn(t.year, t.month)
    && t.hour < 24
    && t.minute < 60
    && t.second < 60
    && t.nanos < 1_000_000_000
  }

  /** The fields in the order the format prints them, most significant first. */
  function Fields(t: Instant): (vals: seq<nat>)
    ensures |vals| == |Layout|
  {
    [t.year, t.month, t.day, t.hour, t.minute, t.second, t.nanos]
  }

  function FromFields(vals: seq<nat>): (t: Instant)
    requires |vals| == 7
    ensures Fields(t) == vals
  {
    Instant(vals[0], vals[1], vals[2], vals[3], vals[4], vals[5], vals[6])
  }

  /** Chronological order of instants. */
  predicate Before(a: Instant, b: Instant) {
    NatsLess(Fields(a), Fields(b))
  }

  lemma ValidFitsWidths(t: Instant)
    requires Valid(t)
    ensures FitsWidths(Layout, Fields(t))
  {
    assert Pow10(4) == 10_000 && Pow10(2) == 100 && Pow10(9) == 1_000_000_000;
  }

  lemma LayoutShape()
    ensures Shape(Layout) == Template
  {
    ShapeFrom(0);
  }

  /** Where the text of each field (its lead included) begins in the template. */
  const Starts: seq<nat> := [0, 4, 7, 10, 13, 16, 19, 29]

  lemma {:induction false} ShapeFrom(k: nat)
    requires k <= 7
    ensures Shape(Layout[k..]) == Template[Starts[k]..]
    decreases 7 - k
  {
    if k == 7 {
    } else {
      ShapeFrom(k + 1);
      assert Layout[k..][1..] == Layout[k + 1..];
      TemplatePiece(k);
    }
  }

  /** The template is the concatenation of the per-field pieces. */
  predicate PieceAt(k: nat)
    requires k < 7
  {
    Template[Starts[k]..] == Layout[k].lead + Hashes(Layout[k].width) + Template[Starts[k + 1]..]
  }

  lemma TemplatePiece(k: nat)
    requires k < 7
    ensures PieceAt(k)
  {
    if k == 0 {
      YearPiece();
    } else if k < 3 {
      DatePieces(k);
    } else if k < 5 {
      HourMinutePieces(k);
    } else {
      SecondPieces(k);
    }
  }

  lemma YearPiece()
    ensures PieceAt(0)
  {
    assert Hashes(4) == "####";
  }

  lemma DatePieces(k: nat)
    requires 1 <= k < 3
    ensures PieceAt(k)
  {
    assert Hashes(2) == "##";
  }

  lemma HourMinutePieces(k: nat)
    requires 3 <= k < 5
    ensures PieceAt(k)
  {
    assert Hashes(2) == "##";
  }

  lemma SecondPieces(k: nat)
    requires 5 <= k < 7
    ensures PieceAt(k)
  {
    assert Hashes(2) == "##";
    assert Hashes(9) == "#########";
  }

  /** `to_string` (time.rs line 30): each field zero-padded to its width,
      the fraction always nine digits, 29 characters in all. */
  function Format(t: Instant): (s: string)
    requires Valid(t)
    ensures |s| == 29
    ensures Fits(s, Template)
  {
    var s := Render(Layout, Fields(t));
    RenderFits(Layout, Fields(t));
    LayoutShape();
    s
  }

  /** `from_string` (time.rs line 14), as a strict parser of the format. */
  function Parse(s: string): (r: Option<Instant>)
    ensures r.Some? ==> Valid(r.value) && Format(r.value) == s
  {
    match Read(Layout, s)
    case None => None
    case Some(vals) =>
      var t := FromFields(vals);
      if Valid(t) then
        RenderRead(Layout, s);
        Some(t)
      else None
  }

  /** `from_string` accepts every `to_string` output and recovers the very
      instant it was printed from. */
  lemma ParseFormat(t: Instant)
    requires Valid(t)
    ensures Parse(Format(t)) == Some(t)
  {
    ValidFitsWidths(t);
    ReadRender(Layout, Fields(t));
  }

  /** The round trip the smoke test of time.rs asserts: printing the parsed
      string gives the same string again. */
  lemma FormatParseFormat(t: Instant)
    requires Valid(t)
    ensures Parse(Format(t)).Some?
    ensures Format(Parse(Format(t)).value) == Format(t)
  {
    ParseFormat(t);
  }

  /** `from_string` fails exactly on the strings that are not the rendering
      of any instant. */
  lemma ParseNone(s: string)
    ensures Parse(s).None? <==> forall t :: Valid(t) ==> Format(t) != s
  {
    if Parse(s).None? {
      forall t | Valid(t)
        ensures Format(t) != s
      {
        ParseFormat(t);
      }
    }
  }

  /** A string of the wrong shape is always rejected. */
  lemma ParseRejectsShape(s: string)
    requires !Fits(s, Template)
    ensures Parse(s) == None
  {
  }

  /** String order of formatted instants is their chronological order. */
  lemma FormatOrder(a: Instant, b: Instant)
    requires Valid(a) && Valid(b)
    ensures Less(Format(a), Format(b)) <==> Before(a, b)
  {
    ValidFitsWidths(a);
    ValidFitsWidths(b);
    RenderOrder(Layout, Fields(a), Fields(b));
  }

  /** Distinct instants print differently. */
  lemma FormatInjective(a: Instant, b: Instant)
    requires Valid(a) && Valid(b) && Format(a) == Format(b)
    ensures a == b
  {
    ParseFormat(a);
    ParseFormat(b);
  }
}
