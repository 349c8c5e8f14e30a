/** Normalize.Apply: writes each colour byte of every pixel as the byte cast
    of c / sqrt(r * r + g * g + b * b), the component divided by the pixel's
    length and truncated. So a pixel with a single non-zero colour keeps a 1
    there, and every other pixel becomes black. The model reads that quotient
    over the integers, where its truncation is exact, and takes 0 for the
    all-zero pixel, whose quotient is not a number. */
module Normalization {
  import opened Pixels

  /** The byte written for component `c` of a pixel whose other two colour
      components are `o1` and `o2`: the truncation of c / sqrt(sum), sum being
      the squared length of the colour vector, that is the v with
      v * sqrt(sum) <= c < (v + 1) * sqrt(sum), stated without the square root;
      and 0 for the all-zero pixel. It is 1 for the only non-zero component of
      the pixel and 0 otherwise. */
  function UnitComponent(c: byte, o1: byte, o2: byte): (v: byte)
    ensures var c2 := c as int * c as int;
      var sum := c2 + o1 as int * o1 as int + o2 as int * o2 as int;
      if sum == 0 then v == 0
      else v as int * v as int * sum <= c2 < (v as int + 1) * (v as int + 1) * sum
  {
    var c', o1', o2' := c as int, o1 as int, o2 as int;
    assert o1 != 0 || o2 != 0 ==> o1' * o1' + o2' * o2' > 0 by {
      if o1 != 0 { assert o1' * o1' >= 1; } else if o2 != 0 { assert o2' * o2' >= 1; }
    }
    assert c > 0 ==> c' * c' >= 1;
    if c > 0 && o1 == 0 && o2 == 0 then 1 else 0
  }

  /** Byte `k` of the normalized buffer: a colour byte of its pixel becomes its
      unit component, computed from the three colour bytes of that pixel; any
      other byte (the leading byte of the ARGB layouts, padding) is kept. */
  function NormalizedByte(s: seq<byte>, lead: nat, pixelSize: nat, k: nat): (v: byte)
    requires lead + 3 <= pixelSize && WholePixels(|s|, pixelSize) && k < |s|
    ensures var d := k - PixelStart(k, pixelSize); lead <= d < lead + 3 ==> v <= 1
    ensures var d := k - PixelStart(k, pixelSize); !(lead <= d < lead + 3) ==> v == s[k]
  {
    var start := PixelStart(k, pixelSize);
    PixelInside(k, |s|, pixelSize);
    var d := k - start;
    if lead <= d < lead + 3 then
      var r, g, b := s[start + lead], s[start + lead + 1], s[start + lead + 2];
      if d == lead then UnitComponent(r, g, b)
      else if d == lead + 1 then UnitComponent(g, r, b)
      else UnitComponent(b, r, g)
    else s[k]
  }

  /** The buffer with every pixel normalized. */
  function Normalized(s: seq<byte>, lead: nat, pixelSize: nat): (r: seq<byte>)
    requires lead + 3 <= pixelSize && WholePixels(|s|, pixelSize)
    ensures |r| == |s|
  {
    seq(|s|, k requires 0 <= k < |s| => NormalizedByte(s, lead, pixelSize, k))
  }

  /** In the pixel of `s` that starts at `base`, `t` holds the three colour
      bytes as their unit components and every other byte as it is in `s`. */
  ghost predicate PixelNormalizedAt(s: seq<byte>, t: seq<byte>, lead: nat, pixelSize: nat, base: nat)
    requires lead + 3 <= pixelSize
  {
    base + pixelSize <= |s| && |t| == |s| &&
    var r, g, b := s[base + lead], s[base + lead + 1], s[base + lead + 2];
    forall k | base <= k < base + pixelSize ::
      t[k] ==
        if k == base + lead then UnitComponent(r, g, b)
        else if k == base + lead + 1 then UnitComponent(g, r, b)
        else if k == base + lead + 2 then UnitComponent(b, r, g)
        else s[k]
  }

  /** Per pixel: every whole pixel of the buffer is normalized in place. */
  lemma PixelNormalized(s: seq<byte>, lead: nat, pixelSize: nat, base: nat)
    requires lead + 3 <= pixelSize && WholePixels(|s|, pixelSize)
    requires WholePixels(base, pixelSize) && base < |s|
    ensures PixelNormalizedAt(s, Normalized(s, lead, pixelSize), lead, pixelSize, base)
  {
    BoundaryGap(base, |s|, pixelSize);
    forall k | base <= k < base + pixelSize
      ensures PixelStart(k, pixelSize) == base
    {
      PixelStartAt(base, k - base, pixelSize);
    }
  }

  /** `t` is `s` with every pixel normalized, stated pixel by pixel over the
      pixel boundaries of the buffer. */
  ghost predicate PixelwiseNormalized(s: seq<byte>, t: seq<byte>, lead: nat, pixelSize: nat)
    requires lead + 3 <= pixelSize
  {
    |t| == |s| &&
    forall base | WholePixels(base, pixelSize) && base < |s| :: PixelNormalizedAt(s, t, lead, pixelSize, base)
  }

  /** Normalized meets the pixel-by-pixel description. */
  lemma NormalizedPixelwise(s: seq<byte>, lead: nat, pixelSize: nat)
    requires lead + 3 <= pixelSize && WholePixels(|s|, pixelSize)
    ensures PixelwiseNormalized(s, Normalized(s, lead, pixelSize), lead, pixelSize)
  {
    forall base | WholePixels(base, pixelSize) && base < |s|
      ensures PixelNormalizedAt(s, Normalized(s, lead, pixelSize), lead, pixelSize, base)
    {
      PixelNormalized(s, lead, pixelSize, base);
    }
  }

  /** A normalized colour vector is 0 or a unit vector: each component is 0
      or 1 and at most one is 1. */
  lemma AtMostOneUnit(r: byte, g: byte, b: byte)
    ensures var r', g', b' := UnitComponent(r, g, b), UnitComponent(g, r, b), UnitComponent(b, r, g);
      r' <= 1 && g' <= 1 && b' <= 1 && r' as int + g' as int + b' as int <= 1
  {
  }

  /** Normalizing a colour vector that is 0 or a unit vector changes nothing. */
  lemma ZeroOrUnitStable(r: byte, g: byte, b: byte)
    ensures var r', g', b' := UnitComponent(r, g, b), UnitComponent(g, r, b), UnitComponent(b, r, g);
      UnitComponent(r', g', b') == r' && UnitComponent(g', r', b') == g' && UnitComponent(b', r', g') == b'
  {
  }

  /** A normalized pixel: each colour byte is 0 or 1, at most one of them is 1,
      and the bytes outside the colour channels are kept. */
  lemma PixelAtMostOneUnit(s: seq<byte>, lead: nat, pixelSize: nat, base: nat)
    requires lead + 3 <= pixelSize && WholePixels(|s|, pixelSize)
    requires WholePixels(base, pixelSize) && base < |s|
    ensures base + pixelSize <= |s|
    ensures var t := Normalized(s, lead, pixelSize);
      t[base + lead] <= 1 && t[base + lead + 1] <= 1 && t[base + lead + 2] <= 1 &&
      t[base + lead] as int + t[base + lead + 1] as int + t[base + lead + 2] as int <= 1 &&
      forall k | base <= k < base + pixelSize && (k < base + lead || base + lead + 3 <= k) :: t[k] == s[k]
  {
    PixelNormalized(s, lead, pixelSize, base);
    AtMostOneUnit(s[base + lead], s[base + lead + 1], s[base + lead + 2]);
  }

  /** Normalizing a normalized buffer changes nothing. */
  lemma NormalizedIdempotent(s: seq<byte>, lead: nat, pixelSize: nat)
    requires lead + 3 <= pixelSize && WholePixels(|s|, pixelSize)
    ensures Normalized(Normalized(s, lead, pixelSize), lead, pixelSize) == Normalized(s, lead, pixelSize)
  {
    var t := Normalized(s, lead, pixelSize);
    forall k | 0 <= k < |s|
      ensures Normalized(t, lead, pixelSize)[k] == t[k]
    {
      var base := PixelStart(k, pixelSize);
      PixelInside(k, |s|, pixelSize);
      PixelNormalized(s, lead, pixelSize, base);
      PixelNormalized(t, lead, pixelSize, base);
      ZeroOrUnitStable(s[base + lead], s[base + lead + 1], s[base + lead + 2]);
    }
  }

  /** What the source needs to stay inside the buffer: the three colour bytes
      of a pixel lie inside it and the buffer is made of whole pixels, because
      the loop reads three bytes from every cursor position below the length. */
  predicate Admissible(len: nat, format: PixelFormat, pixelSize: int)
  {
    len > 0 && LeadingBytes(format).Some? ==>
      LeadingBytes(format).value + 3 <= pixelSize && WholePixels(len, pixelSize)
  }

  /** Effect of Normalize.Apply: nothing on an empty buffer, whatever the
      format; NotSupportedException on a non-empty buffer in an unsupported
      format; otherwise every pixel normalized. */
  function Effect(s: seq<byte>, format: PixelFormat, pixelSize: int): (r: Applied)
    requires Admissible(|s|, format, pixelSize)
    ensures |s| == 0 ==> r == Rewritten(s)
    ensures r.Unsupported? <==> |s| > 0 && format == Other
    ensures r.Unsupported? ==> r.format == format
    ensures r.Rewritten? ==> |r.values| == |s|
  {
    if |s| == 0 then Rewritten(s)
    else match LeadingBytes(format)
      case None => Unsupported(format)
      case Some(lead) => Rewritten(Normalized(s, lead, pixelSize))
  }

  /** Applying Normalize to its own result changes nothing more. */
  lemma EffectIdempotent(s: seq<byte>, t: seq<byte>, format: PixelFormat, pixelSize: int)
    requires Admissible(|s|, format, pixelSize)
    requires Effect(s, format, pixelSize) == Rewritten(t)
    ensures |t| == |s| && Effect(t, format, pixelSize) == Rewritten(t)
  {
    if |s| > 0 {
      NormalizedIdempotent(s, LeadingBytes(format).value, pixelSize);
    }
  }

  /** The body of the Normalize loop: reads red, green and blue from `start` on,
      then writes blue, green and red back, each as its unit component. */
  method NormalizeBytes(values: array<byte>, start: nat)
    requires start + 2 < values.Length
    modifies values
    ensures var r, g, b := old(values[start]), old(values[start + 1]), old(values[start + 2]);
      forall p :: 0 <= p < values.Length ==>
        values[p] == if p == start then UnitComponent(r, g, b)
          else if p == start + 1 then UnitComponent(g, r, b)
          else if p == start + 2 then UnitComponent(b, r, g)
          else old(values[p])
  {
    var k := start;
    var r := values[k];
    k := k + 1;
    var g := values[k];
    k := k + 1;
    var b := values[k];
    values[k] := UnitComponent(b, r, g);
    k := k - 1;
    values[k] := UnitComponent(g, r, b);
    k := k - 1;
    values[k] := UnitComponent(r, g, b);
  }

  /** The loop of Normalize.Apply: at every cursor position it reads the three
      colour bytes, then writes blue, green and red back; `target` is the
      buffer it is to produce, described pixel by pixel. */
  method NormalizeLoop(values: array<byte>, lead: nat, pixelSize: nat, ghost target: seq<byte>)
    requires lead + 3 <= pixelSize && values.Length > 0 && WholePixels(values.Length, pixelSize)
    requires PixelwiseNormalized(values[..], target, lead, pixelSize)
    modifies values
    ensures values[..] == target
  {
    ghost var s := values[..];
    var i := 0;
    var l := values.Length;
    while true
      invariant WholePixels(i, pixelSize) && i < l
      invariant forall k :: 0 <= k < l ==> values[k] == if k < i then target[k] else s[k]
      decreases l - i
    {
      assert PixelNormalizedAt(s, target, lead, pixelSize, i);
      NormalizeBytes(values, i + lead);
      assert forall k :: 0 <= k < l ==> values[k] == if k < i + pixelSize then target[k] else s[k];
      assert WholePixels(i + pixelSize, pixelSize);
      i := i + pixelSize;
      if !(i < l) {
        break;
      }
      BoundaryGap(i, l, pixelSize);
    }
    assert values[..] == target;
  }

  /** Normalize.Apply: on a non-empty buffer, checks the format before the
      first byte is touched and then runs the loop. */
  method Apply(values: array<byte>, format: PixelFormat, pixelSize: int) returns (outcome: Outcome)
    requires Admissible(values.Length, format, pixelSize)
    modifies values
    ensures Reported(outcome, values[..]) == Effect(old(values[..]), format, pixelSize)
    ensures outcome.NotSupported? ==> values[..] == old(values[..])
  {
    var l := values.Length;
    if 0 < l {
      var lead := LeadingBytes(format);
      if lead.None? {
        return NotSupported(format);
      }
      ghost var s := values[..];
      NormalizedPixelwise(s, lead.value, pixelSize);
      NormalizeLoop(values, lead.value, pixelSize, Normalized(s, lead.value, pixelSize));
    }
    return Done;
  }
}
