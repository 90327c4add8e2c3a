/**
 How the timestamp format and the rotation patterns fit together: a name
 that begins with a formatted instant always matches every granularity's
 pattern, its bucket key is the instant's year, month, day or hour, and the
 order of bucket keys is the chronological order of those periods.
 */
module StampBuckets {
  import opened Options
  import opened Text
  import opened Timestamp
  import opened BucketTree

  /** How many leading fields of an instant the key of a granularity holds. */
  function Depth(g: Granularity): (n: nat)
    ensures 1 <= n <= 4
  {
    match g
    case Yearly => 1
    case Monthly => 2
    case Daily => 3
    case Hourly => 4
  }

  /** The period of an instant at a granularity: its year; its year and
      month; its date; its date and hour. */
  function Period(g: Granularity, t: Instant): seq<nat> {
    Fields(t)[..Depth(g)]
  }

  /** The patterns are the leading parts of the timestamp's shape, as long
      as the fields they cover. */
  lemma PatternIsTemplatePrefix(g: Granularity)
    ensures Pattern(g) == Template[..|Pattern(g)|]
    ensures |Pattern(g)| == Span(Layout[..Depth(g)])
  {
    assert Layout[..1] == [Slot("", 4)];
    assert Layout[..2] == [Slot("", 4), Slot("-", 2)];
    assert Layout[..3] == [Slot("", 4), Slot("-", 2), Slot("-", 2)];
    assert Layout[..4] == [Slot("", 4), Slot("-", 2), Slot("-", 2), Slot("_", 2)];
    assert Span(Layout[..1]) == 4 by {
      assert Layout[..1][1..] == [];
    }
    assert Span(Layout[..2]) == 7 by {
      assert Layout[..2][1..] == Layout[1..2] && Layout[1..2][1..] == [];
    }
    assert Span(Layout[..3]) == 10 by {
      assert Layout[..3][1..] == Layout[1..3] && Layout[1..3][1..] == Layout[2..3] && Layout[2..3][1..] == [];
    }
    assert Span(Layout[..4]) == 13 by {
      assert Layout[..4][1..] == Layout[1..4] && Layout[1..4][1..] == Layout[2..4];
      assert Layout[2..4][1..] == Layout[3..4] && Layout[3..4][1..] == [];
      assert Span(Layout[3..4]) == 3;
      assert Span(Layout[2..4]) == 6;
    }
  }

  /** The key of a formatted instant at granularity `g` is the rendering of
      its period. */
  lemma StampKey(g: Granularity, t: Instant, suffix: string)
    requires Valid(t)
    ensures KeyOf(g, Format(t) + suffix) == Some(Render(Layout[..Depth(g)], Period(g, t)))
  {
    var n, w := Depth(g), |Pattern(g)|;
    var s := Format(t);
    PatternIsTemplatePrefix(g);
    FitsPrefix(s, Template, w);
    assert (s + suffix)[..w] == s[..w];
    RenderSplit(Layout, Fields(t), n);
    RenderLength(Layout[..n], Fields(t)[..n]);
    assert s[..w] == Render(Layout[..n], Period(g, t));
  }

  /** Every granularity accepts a name that starts with a formatted instant. */
  lemma StampMatches(g: Granularity, t: Instant, suffix: string)
    requires Valid(t)
    ensures KeyOf(g, Format(t) + suffix).Some?
  {
    StampKey(g, t, suffix);
  }

  /** Two stamped names share a bucket exactly when their instants fall in
      the same period, and buckets come in the chronological order of their
      periods. */
  lemma StampBucketOrder(g: Granularity, a: Instant, b: Instant, sa: string, sb: string)
    requires Valid(a) && Valid(b)
    ensures KeyOf(g, Format(a) + sa).Some? && KeyOf(g, Format(b) + sb).Some?
    ensures KeyOf(g, Format(a) + sa) == KeyOf(g, Format(b) + sb) <==> Period(g, a) == Period(g, b)
    ensures Less(KeyOf(g, Format(a) + sa).value, KeyOf(g, Format(b) + sb).value) <==> NatsLess(Period(g, a), Period(g, b))
  {
    var n := Depth(g);
    StampKey(g, a, sa);
    StampKey(g, b, sb);
    ValidFitsWidths(a);
    ValidFitsWidths(b);
    FitsWidthsPrefix(Layout, Fields(a), n);
    FitsWidthsPrefix(Layout, Fields(b), n);
    ReadRender(Layout[..n], Period(g, a));
    ReadRender(Layout[..n], Period(g, b));
    RenderOrder(Layout[..n], Period(g, a), Period(g, b));
  }

  /** A later instant never lands in an older bucket. */
  lemma StampBucketMonotone(g: Granularity, a: Instant, b: Instant, sa: string, sb: string)
    requires Valid(a) && Valid(b) && Before(a, b)
    ensures KeyOf(g, Format(a) + sa).Some? && KeyOf(g, Format(b) + sb).Some?
    ensures var ka, kb := KeyOf(g, Format(a) + sa).value, KeyOf(g, Format(b) + sb).value;
      ka == kb || Less(ka, kb)
  {
    StampMatches(g, a, sa);
    StampMatches(g, b, sb);
    StampBucketOrder(g, a, b, sa, sb);
    NatsLessPrefix(Fields(a), Fields(b), Depth(g));
  }

  /** A name stamped earlier sorts before a name stamped later, whatever
      follows the stamps. */
  lemma StampNameOrder(a: Instant, b: Instant, sa: string, sb: string)
    requires Valid(a) && Valid(b) && Before(a, b)
    ensures Less(Format(a) + sa, Format(b) + sb)
  {
    FormatOrder(a, b);
    LessAppend(Format(a), Format(b), sa, sb);
  }
}
