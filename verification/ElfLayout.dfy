/**
 * The layout step of elf_update (lib/elf/libelf.c): file offsets, sizes and
 * alignments of sections and of the data fragments inside them.
 */
module ElfLayout {
  import opened Bytes

  /** Sizes of the 32-bit ELF, program and section headers. */
  const EHDR_SIZE := 52
  const PHDR_SIZE := 32
  const SHDR_SIZE := 40

  datatype Fragment = Fragment(align: nat, size: nat)

  /** `nobits` marks a section that takes no space in the file. */
  datatype Section = Section(nobits: bool, fragments: seq<Fragment>)

  datatype Header = Header(offset: nat, align: nat, size: nat)

  // ---------- Alignment ----------

  predicate PowerOfTwo(a: nat) {
    a == 1 || (a > 1 && a % 2 == 0 && PowerOfTwo(a / 2))
  }

  /** Bitwise and. */
  function And(x: nat, y: nat): nat {
    if x == 0 || y == 0 then 0
    else 2 * And(x / 2, y / 2) + (if x % 2 == 1 && y % 2 == 1 then 1 else 0)
  }

  lemma {:induction false} HalfMod(x: nat, b: nat)
    requires 0 < b
    ensures 2 * (x / 2 % b) + x % 2 == x % (2 * b)
  {
    var h := x / 2;
    var q, m, r := h / b, h % b, x % 2;
    assert h == b * q + m && x == 2 * h + r;
    assert x == (2 * b) * q + (2 * m + r) by {
      assert 2 * (b * q + m) == (2 * b) * q + 2 * m;
    }
    DivMod(x, 2 * b, q, 2 * m + r);
  }

  lemma {:induction false} AndOdd(x: nat, b: nat)
    requires 0 < b && And(x / 2, b - 1) == x / 2 % b
    ensures And(x, 2 * b - 1) == x % (2 * b)
  {
    assert (2 * b - 1) / 2 == b - 1 && (2 * b - 1) % 2 == 1;
    HalfMod(x, b);
  }

  lemma {:induction false} PowerHalf(a: nat)
    requires PowerOfTwo(a) && a > 1
    ensures PowerOfTwo(a / 2) && a == 2 * (a / 2)
  {
  }

  /** Masking with a power of two less one is the remainder. */
  lemma {:induction false} AndMask(x: nat, a: nat)
    requires PowerOfTwo(a)
    ensures And(x, a - 1) == x % a
    decreases a
  {
    if a > 1 {
      PowerHalf(a);
      hide And, PowerOfTwo;
      AndMask(x / 2, a / 2);
      AndOdd(x, a / 2);
    }
  }

  lemma {:induction false} Multiple(x: nat, d: nat, q: nat)
    requires 0 < d && x == d * q
    ensures x % d == 0
  {
    DivMod(x, d, q, 0);
  }

  lemma {:induction false} PowersDivide(a: nat, b: nat)
    requires PowerOfTwo(a) && PowerOfTwo(b) && a <= b
    ensures b % a == 0
  {
    if a > 1 {
      var c, d := a / 2, b / 2;
      PowersDivide(c, d);
      assert d == c * (d / c);
      assert b == a * (d / c) by {
        assert b == 2 * d && a == 2 * c;
        assert 2 * (c * (d / c)) == (2 * c) * (d / c);
      }
      Multiple(b, a, d / c);
    }
  }

  lemma {:induction false} DividesThrough(x: nat, b: nat, a: nat)
    requires 0 < a && 0 < b && x % b == 0 && b % a == 0
    ensures x % a == 0
  {
    var q, p := x / b, b / a;
    assert x == b * q && b == a * p;
    assert (a * p) * q == a * (p * q);
    Multiple(x, a, p * q);
  }

  /** No constraint, or a power of two. */
  predicate Alignment(a: nat) {
    a == 0 || PowerOfTwo(a)
  }

  predicate Aligned(x: nat, a: nat) {
    a == 0 || x % a == 0
  }

  /** The padding from `x` to the next multiple of `a`. */
  function Fill(x: nat, a: nat): (f: nat)
    requires Alignment(a)
  {
    if a == 0 then 0
    else
      AndMask(x, a);
      And(a - And(x, a - 1), a - 1)
  }

  lemma {:induction false} PadReaches(x: nat, a: nat)
    requires 0 < a
    ensures (x + (a - x % a) % a) % a == 0
    ensures (a - x % a) % a < a
  {
    var q, r := x / a, x % a;
    assert x == a * q + r;
    if r == 0 {
      DivMod(a, a, 1, 0);
    } else {
      DivMod(a - r, a, 0, a - r);
      assert a * (q + 1) == a * q + a;
      Multiple(x + (a - r), a, q + 1);
    }
  }

  /** Padding reaches a multiple, and the nearest one. */
  lemma {:induction false} FillReaches(x: nat, a: nat)
    requires Alignment(a)
    ensures Aligned(x + Fill(x, a), a)
    ensures a == 0 ==> Fill(x, a) == 0
    ensures a > 0 ==> Fill(x, a) < a
  {
    if a > 0 {
      AndMask(x, a);
      AndMask(a - x % a, a);
      assert Fill(x, a) == (a - x % a) % a;
      hide Fill, And, PowerOfTwo;
      PadReaches(x, a);
    }
  }

  lemma {:induction false} AlignedDifference(x: nat, y: nat, a: nat)
    requires 0 < a && y <= x && x % a == 0
    ensures (x - y) % a == 0 <==> y % a == 0
  {
    var p := x / a;
    assert x == a * p;
    if y % a == 0 {
      var q := y / a;
      assert y == a * q;
      assert x - y == a * (p - q);
      Difference(a, p, q, x - y);
    }
    if (x - y) % a == 0 {
      var q := (x - y) / a;
      assert x - y == a * q;
      assert y == a * (p - q);
      Difference(a, p, q, y);
    }
  }

  lemma {:induction false} Difference(a: nat, p: nat, q: nat, d: nat)
    requires 0 < a && d == a * (p - q)
    ensures d % a == 0
  {
    assert p >= q;
    Multiple(d, a, p - q);
  }

  // ---------- Fragments of one section ----------

  predicate GoodFragments(fs: seq<Fragment>) {
    forall j :: 0 <= j < |fs| ==> Alignment(fs[j].align)
  }

  function Strictest(fs: seq<Fragment>): nat {
    if fs == [] then 0
    else
      var a := Strictest(fs[..|fs| - 1]);
      if fs[|fs| - 1].align > a then fs[|fs| - 1].align else a
  }

  lemma {:induction false} StrictestIs(fs: seq<Fragment>)
    requires GoodFragments(fs)
    ensures Alignment(Strictest(fs))
    ensures forall j :: 0 <= j < |fs| ==> fs[j].align <= Strictest(fs)
    ensures Strictest(fs) == 0 || exists j :: 0 <= j < |fs| && fs[j].align == Strictest(fs)
  {
    if fs != [] {
      var front := fs[..|fs| - 1];
      StrictestIs(front);
      if Strictest(front) > 0 {
        var j :| 0 <= j < |front| && front[j].align == Strictest(front);
        assert fs[j].align == Strictest(front);
      }
    }
  }

  /** The section's size once its first fragments are placed. */
  function SizeOf(fs: seq<Fragment>): nat
    requires GoodFragments(fs)
  {
    if fs == [] then 0 else OffsetOf(fs, |fs| - 1) + fs[|fs| - 1].size
  }

  /** Where fragment `j` goes within its section. */
  function OffsetOf(fs: seq<Fragment>, j: nat): nat
    requires GoodFragments(fs) && j < |fs|
    decreases j, 1
  {
    EndBefore(fs, j) + Fill(EndBefore(fs, j), fs[j].align)
  }

  function EndBefore(fs: seq<Fragment>, j: nat): nat
    requires GoodFragments(fs) && j <= |fs|
    decreases j, 0
  {
    if j == 0 then 0 else OffsetOf(fs, j - 1) + fs[j - 1].size
  }

  /** Fragments follow one another without overlap, within the section. */
  lemma {:induction false} FragmentsOrdered(fs: seq<Fragment>, i: nat, j: nat)
    requires GoodFragments(fs) && i < j <= |fs|
    ensures OffsetOf(fs, i) + fs[i].size <= EndBefore(fs, j) <= SizeOf(fs)
    decreases |fs| - i, j
  {
    if i + 1 < j {
      FragmentsOrdered(fs, i, j - 1);
    }
    EndsGrow(fs, j);
  }

  lemma {:induction false} EndsGrow(fs: seq<Fragment>, j: nat)
    requires GoodFragments(fs) && j <= |fs|
    ensures EndBefore(fs, j) <= EndBefore(fs, |fs|) == SizeOf(fs)
    decreases |fs| - j
  {
    if j < |fs| {
      EndsGrow(fs, j + 1);
    }
  }

  /** Every fragment is aligned within its section. */
  lemma {:induction false} FragmentAligned(fs: seq<Fragment>, j: nat)
    requires GoodFragments(fs) && j < |fs|
    ensures Aligned(OffsetOf(fs, j), fs[j].align)
  {
    FillReaches(EndBefore(fs, j), fs[j].align);
  }

  /** A fragment starts less than its alignment behind the one before, and the section ends with the last. */
  lemma {:induction false} FragmentGap(fs: seq<Fragment>, j: nat)
    requires GoodFragments(fs) && j < |fs|
    ensures
      var from := if j == 0 then 0 else OffsetOf(fs, j - 1) + fs[j - 1].size;
      from <= OffsetOf(fs, j) && (OffsetOf(fs, j) == from || OffsetOf(fs, j) < from + fs[j].align)
    ensures SizeOf(fs) == OffsetOf(fs, |fs| - 1) + fs[|fs| - 1].size
  {
    FillReaches(EndBefore(fs, j), fs[j].align);
    hide Fill;
  }

  // ---------- Sections of a file ----------

  predicate Good(ss: seq<Section>) {
    forall i :: 0 <= i < |ss| ==> GoodFragments(ss[i].fragments)
  }

  /** The file position, and the position had every section taken space. */
  datatype Cursor = Cursor(offset: nat, aligned: nat)

  function Start(phnum: nat): nat {
    EHDR_SIZE + phnum * PHDR_SIZE
  }

  function Padding(c: Cursor, s: Section): nat
    requires GoodFragments(s.fragments)
  {
    StrictestIs(s.fragments);
    Fill(c.aligned, Strictest(s.fragments))
  }

  function HeaderAt(c: Cursor, s: Section): Header
    requires GoodFragments(s.fragments)
  {
    Header(c.offset + Padding(c, s), Strictest(s.fragments), SizeOf(s.fragments))
  }

  function Pass(c: Cursor, s: Section): Cursor
    requires GoodFragments(s.fragments)
  {
    var size := SizeOf(s.fragments);
    Cursor(c.offset + Padding(c, s) + (if s.nobits then 0 else size), c.aligned + Padding(c, s) + size)
  }

  function Before(phnum: nat, ss: seq<Section>, i: nat): Cursor
    requires Good(ss) && i <= |ss|
  {
    if i == 0 then Cursor(Start(phnum), Start(phnum)) else Pass(Before(phnum, ss, i - 1), ss[i - 1])
  }

  function HeaderOf(phnum: nat, ss: seq<Section>, i: nat): Header
    requires Good(ss) && i < |ss|
  {
    HeaderAt(Before(phnum, ss, i), ss[i])
  }

  /** The file range of section `i`. */
  function FileEnd(phnum: nat, ss: seq<Section>, i: nat): nat
    requires Good(ss) && i < |ss|
  {
    var h := HeaderOf(phnum, ss, i);
    h.offset + if ss[i].nobits then 0 else h.size
  }

  function SectionHeaders(phnum: nat, ss: seq<Section>): nat
    requires Good(ss)
  {
    Before(phnum, ss, |ss|).offset
  }

  lemma {:induction false} OffsetsGrow(phnum: nat, ss: seq<Section>, i: nat, j: nat)
    requires Good(ss) && i <= j <= |ss|
    ensures Before(phnum, ss, i).offset <= Before(phnum, ss, j).offset
    decreases j
  {
    if i < j {
      hide Fill, Strictest, SizeOf, Padding;
      OffsetsGrow(phnum, ss, i, j - 1);
    }
  }

  /** Every section lies after the program headers and before the section headers. */
  lemma {:induction false} SectionWithin(phnum: nat, ss: seq<Section>, i: nat)
    requires Good(ss) && i < |ss|
    ensures Start(phnum) <= HeaderOf(phnum, ss, i).offset
    ensures FileEnd(phnum, ss, i) <= SectionHeaders(phnum, ss)
  {
    hide Fill, Strictest, SizeOf, Padding;
    OffsetsGrow(phnum, ss, 0, i);
    OffsetsGrow(phnum, ss, i + 1, |ss|);
  }

  /** The file header takes 52 bytes and each program header 32; no section's bytes lie among them, and the section
      headers, of 40 bytes each, lie behind all sections. */
  lemma {:induction false} SectionsClear(phnum: nat, ss: seq<Section>, i: nat)
    requires Good(ss) && i < |ss|
    ensures 52 + 32 * phnum <= HeaderOf(phnum, ss, i).offset <= FileEnd(phnum, ss, i)
    ensures FileEnd(phnum, ss, i) == HeaderOf(phnum, ss, i).offset + (if ss[i].nobits then 0 else SizeOf(ss[i].fragments))
    ensures FileEnd(phnum, ss, i) <= SectionHeaders(phnum, ss)
  {
    SectionWithin(phnum, ss, i);
    hide Fill, Strictest, SizeOf, Padding;
  }

  /** A section starts less than its alignment behind the bytes before it, and the section headers right behind the
      last. */
  lemma {:induction false} SectionGap(phnum: nat, ss: seq<Section>, i: nat)
    requires Good(ss) && i < |ss|
    ensures
      var from := if i == 0 then 52 + 32 * phnum else FileEnd(phnum, ss, i - 1);
      var h := HeaderOf(phnum, ss, i);
      from <= h.offset && (h.offset == from || h.offset < from + h.align)
    ensures SectionHeaders(phnum, ss) == FileEnd(phnum, ss, |ss| - 1)
  {
    StrictestIs(ss[i].fragments);
    FillReaches(Before(phnum, ss, i).aligned, Strictest(ss[i].fragments));
    hide Fill, Strictest, SizeOf;
  }

  /** File ranges follow one another without overlap. */
  lemma {:induction false} SectionsOrdered(phnum: nat, ss: seq<Section>, i: nat, j: nat)
    requires Good(ss) && i < j < |ss|
    ensures FileEnd(phnum, ss, i) <= HeaderOf(phnum, ss, j).offset
  {
    hide Fill, Strictest, SizeOf, Padding;
    OffsetsGrow(phnum, ss, i + 1, j);
  }

  /** The space sections before `i` would have taken but do not. */
  function Skipped(ss: seq<Section>, i: nat): nat
    requires Good(ss) && i <= |ss|
  {
    if i == 0 then 0 else Skipped(ss, i - 1) + if ss[i - 1].nobits then SizeOf(ss[i - 1].fragments) else 0
  }

  lemma {:induction false} SkippedIs(phnum: nat, ss: seq<Section>, i: nat)
    requires Good(ss) && i <= |ss|
    ensures Before(phnum, ss, i).aligned == Before(phnum, ss, i).offset + Skipped(ss, i)
  {
    if i > 0 {
      SkippedIs(phnum, ss, i - 1);
    }
  }

  /** With an alignment that divides the section's, the file offset meets it exactly when the skipped space does. */
  lemma {:induction false} OffsetMeets(phnum: nat, ss: seq<Section>, i: nat, a: nat)
    requires Good(ss) && i < |ss|
    requires PowerOfTwo(a) && a <= Strictest(ss[i].fragments)
    ensures Aligned(HeaderOf(phnum, ss, i).offset, a) <==> Skipped(ss, i) % a == 0
  {
    var c := Before(phnum, ss, i);
    var s := Strictest(ss[i].fragments);
    StrictestIs(ss[i].fragments);
    FillReaches(c.aligned, s);
    PowersDivide(a, s);
    DividesThrough(c.aligned + Fill(c.aligned, s), s, a);
    SkippedIs(phnum, ss, i);
    AlignedDifference(c.aligned + Fill(c.aligned, s), Skipped(ss, i), a);
  }

  /**
   * A section's file offset is aligned exactly when the space skipped before
   * it is a multiple of its alignment.
   */
  lemma {:induction false} SectionAligned(phnum: nat, ss: seq<Section>, i: nat)
    requires Good(ss) && i < |ss|
    ensures
      var h := HeaderOf(phnum, ss, i);
      Aligned(h.offset, h.align) <==> Aligned(Skipped(ss, i), h.align)
  {
    StrictestIs(ss[i].fragments);
    if Strictest(ss[i].fragments) > 0 {
      OffsetMeets(phnum, ss, i, Strictest(ss[i].fragments));
    }
  }

  /** In particular with no such section before it. */
  lemma {:induction false} NothingSkipped(phnum: nat, ss: seq<Section>, i: nat)
    requires Good(ss) && i < |ss|
    requires forall j :: 0 <= j < i ==> !ss[j].nobits
    ensures
      var h := HeaderOf(phnum, ss, i);
      Aligned(h.offset, h.align) && Skipped(ss, i) == 0
  {
    SkipsNone(ss, i);
    SectionAligned(phnum, ss, i);
  }

  lemma {:induction false} SkipsNone(ss: seq<Section>, i: nat)
    requires Good(ss) && i <= |ss|
    requires forall j :: 0 <= j < i ==> !ss[j].nobits
    ensures Skipped(ss, i) == 0
  {
    if i > 0 {
      SkipsNone(ss, i - 1);
    }
  }

  lemma {:induction false} SumMod(x: nat, y: nat, a: nat)
    requires 0 < a && y % a == 0
    ensures (x + y) % a == x % a
  {
    var p, q := x / a, y / a;
    assert x == a * p + x % a && y == a * q;
    assert a * (p + q) == a * p + a * q;
    DivMod(x + y, a, p + q, x % a);
  }

  /** A fragment's place in the file is aligned exactly when the skipped space is a multiple of its alignment. */
  lemma {:induction false} FragmentInFile(phnum: nat, ss: seq<Section>, i: nat, j: nat)
    requires Good(ss) && i < |ss| && j < |ss[i].fragments|
    ensures
      var f := ss[i].fragments[j];
      Aligned(HeaderOf(phnum, ss, i).offset + OffsetOf(ss[i].fragments, j), f.align) <==> Aligned(Skipped(ss, i), f.align)
  {
    var fs := ss[i].fragments;
    if fs[j].align > 0 {
      StrictestIs(fs);
      OffsetMeets(phnum, ss, i, fs[j].align);
      FragmentAligned(fs, j);
      SumMod(HeaderOf(phnum, ss, i).offset, OffsetOf(fs, j), fs[j].align);
    }
  }

  /** One byte of skipped space is enough to misalign the next section. */
  lemma {:induction false} SkippedMisaligns()
    ensures
      var ss := [Section(true, [Fragment(1, 1)]), Section(false, [Fragment(4, 4)])];
      Good(ss) && !Aligned(HeaderOf(0, ss, 1).offset, HeaderOf(0, ss, 1).align)
  {
    var f0, f1 := [Fragment(1, 1)], [Fragment(4, 4)];
    var ss := [Section(true, f0), Section(false, f1)];
    assert PowerOfTwo(2) && PowerOfTwo(4);
    assert Fill(0, 1) == 0 && SizeOf(f0) == 1;
    assert Skipped(ss, 1) == 1;
    assert Strictest(f1[..0]) == 0;
    assert Strictest(f1) == 4;
    SectionAligned(0, ss, 1);
  }

  // ---------- The loops ----------

  class ElfFile {
    const phnum: nat
    const sections: seq<Section>
    const headers: array<Header>
    const dataOffsets: array<seq<nat>>
    var phoff: nat
    var shoff: nat

    ghost predicate Valid() {
      Good(sections) && headers.Length == dataOffsets.Length == |sections|
    }

    constructor (phnum: nat, sections: seq<Section>)
      requires Good(sections)
      ensures Valid() && fresh(headers) && fresh(dataOffsets)
      ensures this.phnum == phnum && this.sections == sections
    {
      this.phnum, this.sections := phnum, sections;
      headers := new Header[|sections|](_ => Header(0, 0, 0));
      dataOffsets := new seq<nat>[|sections|](_ => []);
      phoff, shoff := 0, 0;
    }

    /** The strictest alignment among a section's fragments. */
    static method FindAlign(fs: seq<Fragment>) returns (align: nat)
      ensures align == Strictest(fs)
    {
      align := 0;
      for j := 0 to |fs|
        invariant align == Strictest(fs[..j])
      {
        assert fs[..j + 1][..j] == fs[..j];
        if fs[j].align > align {
          align := fs[j].align;
        }
      }
      assert fs[..|fs|] == fs;
    }

    /** The padding that both loops compute by masking. */
    static method FindFill(x: nat, align: nat) returns (fill: nat)
      requires Alignment(align)
      ensures fill == Fill(x, align)
    {
      if align == 0 {
        return 0;
      }
      AndMask(x, align);
      var misfit := And(x, align - 1);
      fill := And(align - misfit, align - 1);
    }

    /** Places the fragments of one section. */
    static method PlaceFragments(fs: seq<Fragment>) returns (offs: seq<nat>, size: nat)
      requires GoodFragments(fs)
      ensures size == SizeOf(fs) && |offs| == |fs|
      ensures forall j :: 0 <= j < |fs| ==> offs[j] == OffsetOf(fs, j)
    {
      offs, size := [], 0;
      hide Fill;
      for j := 0 to |fs|
        invariant size == EndBefore(fs, j) && |offs| == j
        invariant forall k :: 0 <= k < j ==> offs[k] == OffsetOf(fs, k)
      {
        var fill := FindFill(size, fs[j].align);
        offs := offs + [size + fill];
        size := size + fill + fs[j].size;
      }
    }

    /** Lays the whole file out and returns its size. */
    method Update() returns (size: nat)
      requires Valid()
      modifies this, headers, dataOffsets
      ensures phoff == 52 && shoff == SectionHeaders(phnum, sections)
      ensures size == shoff + |sections| * 40
      ensures forall i :: 0 <= i < |sections| ==> headers[i] == HeaderOf(phnum, sections, i)
      ensures forall i :: 0 <= i < |sections| ==>
        && |dataOffsets[i]| == |sections[i].fragments|
        && forall j :: 0 <= j < |dataOffsets[i]| ==> dataOffsets[i][j] == OffsetOf(sections[i].fragments, j)
    {
      hide Fill, Strictest, SizeOf, OffsetOf, GoodFragments;
      phoff := EHDR_SIZE;
      var offset: nat := phoff + phnum * PHDR_SIZE;
      var alignOffset: nat := offset;
      for i := 0 to |sections|
        invariant Cursor(offset, alignOffset) == Before(phnum, sections, i)
        invariant phoff == EHDR_SIZE
        invariant forall k :: 0 <= k < i ==> headers[k] == HeaderOf(phnum, sections, k)
        invariant forall k :: 0 <= k < i ==>
          && |dataOffsets[k]| == |sections[k].fragments|
          && forall j :: 0 <= j < |dataOffsets[k]| ==> dataOffsets[k][j] == OffsetOf(sections[k].fragments, j)
      {
        var fs := sections[i].fragments;
        var align := FindAlign(fs);
        StrictestIs(fs);
        var fill := FindFill(alignOffset, align);
        offset, alignOffset := offset + fill, alignOffset + fill;
        var offs, sectionSize := PlaceFragments(fs);
        dataOffsets[i] := offs;
        headers[i] := Header(offset, align, sectionSize);
        if !sections[i].nobits {
          offset := offset + sectionSize;
        }
        alignOffset := alignOffset + sectionSize;
      }
      shoff := offset;
      size := offset + |sections| * SHDR_SIZE;
    }
  }
}
