/** The crate root: the textual rendering of a bit sequence behind `to_string`.

    A sequence is shown as groups of 8 characters separated by `_`, one group
    per started byte and at least one. Within a group the most significant bit
    of the byte comes first; an index at or past the end of the sequence is
    shown as `.`. */
module Lib {

  /** The character shown for bit index `idx`. */
  function Glyph(bits: seq<bool>, idx: nat): char
  {
    if idx >= |bits| then '.' else if bits[idx] then '1' else '0'
  }

  /** The 8 characters of the byte that starts at bit `start`, bit `start + 7` first. */
  function Group(bits: seq<bool>, start: nat): (g: string)
    ensures |g| == 8
  {
    seq(8, j requires 0 <= j < 8 => Glyph(bits, start + 7 - j))
  }

  /** The number of groups shown for `n` bits: `max(1, ceil(n / 8))`. */
  function GroupCount(n: nat): (c: nat)
    ensures 1 <= c && n <= 8 * c
    ensures c == 1 || 8 * (c - 1) < n
  {
    if n == 0 then 1 else (n + 7) / 8
  }

  lemma GroupCountUnique(n: nat, m: nat)
    requires 1 <= m && n <= 8 * m && (m == 1 || 8 * (m - 1) < n)
    ensures GroupCount(n) == m
  {
  }

  /** The first `g` groups joined by `_`. */
  function Groups(bits: seq<bool>, g: nat): (s: string)
    requires g >= 1
    ensures |s| == 9 * g - 1
  {
    if g == 1 then Group(bits, 0) else Groups(bits, g - 1) + "_" + Group(bits, 8 * (g - 1))
  }

  /** What `debug` returns for `bits`: `max(1, ceil(|bits| / 8))` groups of 8
      characters with `_` between neighbouring groups, so the empty sequence
      renders as 8 characters. */
  function Render(bits: seq<bool>): (s: string)
    ensures |bits| == 0 ==> |s| == 8
    ensures |bits| > 0 ==> |s| == 9 * ((|bits| + 7) / 8) - 1
  {
    Groups(bits, GroupCount(|bits|))
  }

  lemma {:induction false} GroupsAt(bits: seq<bool>, g: nat, i: nat, j: nat)
    requires i < g && j < 8
    ensures Groups(bits, g)[9 * i + j] == Glyph(bits, 8 * i + 7 - j)
  {
    if i < g - 1 {
      GroupsAt(bits, g - 1, i, j);
    }
  }

  lemma {:induction false} GroupsSeparator(bits: seq<bool>, g: nat, i: nat)
    requires 0 < i < g
    ensures Groups(bits, g)[9 * i - 1] == '_'
  {
    if i < g - 1 {
      GroupsSeparator(bits, g - 1, i);
    }
  }

  /** Character `j` of group `i` shows bit `8i + 7 - j`: `.` when that index is
      past the end, otherwise `1` for a set bit and `0` for a clear one. */
  lemma RenderAt(bits: seq<bool>, i: nat, j: nat)
    requires i < GroupCount(|bits|) && j < 8
    ensures 9 * i + j < |Render(bits)|
    ensures var idx := 8 * i + 7 - j;
      Render(bits)[9 * i + j] == if idx >= |bits| then '.' else if bits[idx] then '1' else '0'
  {
    GroupsAt(bits, GroupCount(|bits|), i, j);
  }

  /** Exactly one `_` stands before every group but the first. */
  lemma RenderSeparator(bits: seq<bool>, i: nat)
    requires 0 < i < GroupCount(|bits|)
    ensures Render(bits)[9 * i - 1] == '_'
  {
    GroupsSeparator(bits, GroupCount(|bits|), i);
  }

  /** A group depends only on the bits it covers. */
  lemma GroupAppend(a: seq<bool>, b: seq<bool>, start: nat)
    ensures start + 8 <= |a| ==> Group(a + b, start) == Group(a, start)
    ensures Group(a + b, |a| + start) == Group(b, start)
  {
    if start + 8 <= |a| {
      forall j | 0 <= j < 8
        ensures Group(a + b, start)[j] == Group(a, start)[j]
      {
        var idx := start + 7 - j;
        assert Group(a + b, start)[j] == Glyph(a + b, idx) && Group(a, start)[j] == Glyph(a, idx);
      }
    }
    forall j | 0 <= j < 8
      ensures Group(a + b, |a| + start)[j] == Group(b, start)[j]
    {
      var idx := start + 7 - j;
      assert Group(a + b, |a| + start)[j] == Glyph(a + b, |a| + idx) && Group(b, start)[j] == Glyph(b, idx);
    }
  }

  lemma {:induction false} GroupsAfterByte(a: seq<bool>, b: seq<bool>, g: nat)
    requires |a| == 8 && g >= 1
    ensures Groups(a + b, g + 1) == Group(a, 0) + "_" + Groups(b, g)
  {
    GroupAppend(a, b, 0);
    GroupAppend(a, b, 8 * (g - 1));
    if g > 1 {
      GroupsAfterByte(a, b, g - 1);
    }
  }

  /** A sequence of at most 8 bits renders as one group, bit 7 first. */
  lemma RenderShort(a: seq<bool>)
    requires |a| <= 8
    ensures Render(a) == [Glyph(a, 7), Glyph(a, 6), Glyph(a, 5), Glyph(a, 4),
                          Glyph(a, 3), Glyph(a, 2), Glyph(a, 1), Glyph(a, 0)]
  {
  }

  /** Rendering from the front: the first byte rendered on its own, `_`, then
      the rest rendered on its own. */
  lemma RenderFirstByte(a: seq<bool>, b: seq<bool>)
    requires |a| == 8 && |b| > 0
    ensures Render(a + b) == Render(a) + "_" + Render(b)
  {
    GroupCountUnique(|a + b|, GroupCount(|b|) + 1);
    GroupsAfterByte(a, b, GroupCount(|b|));
  }

  /** A group is built one character at a time, bit `start + 7` first. */
  lemma GroupPrefixStep(bits: seq<bool>, start: nat, k: nat)
    requires k < 8
    ensures Group(bits, start)[..k + 1] == Group(bits, start)[..k] + [Glyph(bits, start + 7 - k)]
  {
  }

  /** Renders `bits` (the bit sequence of a reader) group by group, appending
      one character at a time. */
  method Debug(bits: seq<bool>) returns (s: string)
    ensures s == Render(bits)
  {
    s := "";
    var byteBit: nat := 0;
    ghost var g: nat := 0;
    while true
      invariant byteBit == 8 * g
      invariant byteBit == 0 || byteBit < |bits|
      invariant s == if g == 0 then "" else Groups(bits, g)
      decreases |bits| - byteBit
    {
      if byteBit != 0 {
        s := s + "_";
      }
      ghost var before := s;
      for bit := 8 downto 0
        invariant s == before + Group(bits, byteBit)[..8 - bit]
      {
        var idx := byteBit + bit;
        GroupPrefixStep(bits, byteBit, 7 - bit);
        if idx >= |bits| {
          s := s + ".";
          continue;
        }
        if bits[idx] {
          s := s + "1";
        } else {
          s := s + "0";
        }
      }
      assert s == Groups(bits, g + 1) by {
        assert Group(bits, byteBit)[..8] == Group(bits, byteBit);
      }
      byteBit := byteBit + 8;
      g := g + 1;
      if byteBit >= |bits| {
        GroupCountUnique(|bits|, g);
        break;
      }
    }
  }
}
