/** kernel/kernel/tags.c: the walk over the boot information (Multiboot2 specification, version 2.0,
    section 3.6.2). */
module TagList {
  import opened Words

  const TYPE_END: u32 := 0
  const TYPE_MODULE: u32 := 3
  const TYPE_BASIC_MEMINFO: u32 := 4
  const TYPE_BOOTDEV: u32 := 5
  const TYPE_MMAP: u32 := 6
  const TYPE_ELF_SECTIONS: u32 := 9
  const TYPE_ACPI_OLD: u32 := 14
  const TYPE_ACPI_NEW: u32 := 15

  /** A tag: its type, its size in bytes with the 8-byte header but without padding, and the words that
      follow the header. */
  datatype Tag = Tag(kind: u32, size: u32, payload: seq<u32>)

  /** Tags start at addresses divisible by 8. */
  function Padded(size: int): int {
    (size + 7) / 8 * 8
  }

  /** The next multiple of 8. */
  lemma PaddedMeaning(size: nat)
    ensures Padded(size) % 8 == 0 && size <= Padded(size) < size + 8
  {
  }

  ghost predicate WellFormed(t: Tag) {
    t.size >= 8 && t.size <= 0xffff_fff8 && 8 + 4 * |t.payload| == Padded(t.size)
  }

  ghost function TagWords(t: Tag): seq<u32> {
    [t.kind, t.size] + t.payload
  }

  /** The tags one after the other, closed by the END tag. */
  ghost function Serialised(tags: seq<Tag>): (words: seq<u32>)
    ensures |words| >= 2
  {
    if tags == [] then [TYPE_END, 8] else TagWords(tags[0]) + Serialised(tags[1..])
  }

  /** A list as the boot loader stores it: no tag but the last has type END. */
  ghost predicate IsList(tags: seq<Tag>) {
    forall t :: t in tags ==> WellFormed(t) && t.kind != TYPE_END
  }

  /** The offset of tag i from the first tag. */
  ghost function Offset(tags: seq<Tag>, i: nat): (offset: nat)
    requires i <= |tags|
  {
    if i == 0 then 0 else Offset(tags, i - 1) + 8 + 4 * |tags[i - 1].payload|
  }

  /** What the walk finds at the offset of tag i: its header, or the END tag behind the last. */
  lemma {:induction false} HeaderAt(tags: seq<Tag>, i: nat)
    requires i <= |tags|
    ensures Offset(tags, i) % 4 == 0 && Offset(tags, i) / 4 + 2 <= |Serialised(tags)|
    ensures var w := Offset(tags, i) / 4;
      var words := Serialised(tags);
      if i < |tags| then words[w] == tags[i].kind && words[w + 1] == tags[i].size else words[w] == TYPE_END
  {
    if i == 0 {
      if tags != [] {
        assert Serialised(tags) == TagWords(tags[0]) + Serialised(tags[1..]);
      }
    } else {
      OffsetFromSecond(tags, i);
      HeaderAt(tags[1..], i - 1);
    }
  }

  lemma {:induction false} OffsetFromSecond(tags: seq<Tag>, i: nat)
    requires 1 <= i <= |tags|
    ensures Offset(tags, i) == 8 + 4 * |tags[0].payload| + Offset(tags[1..], i - 1)
  {
    if i > 1 {
      OffsetFromSecond(tags, i - 1);
      assert tags[1..][i - 2] == tags[i - 1];
    } else {
      assert Offset(tags, 0) == 0 && Offset(tags[1..], 0) == 0;
    }
  }

  /** Memory, by words, with a list of tags 8 bytes behind addr. */
  ghost predicate Holds(mem: seq<u32>, addr: u32, tags: seq<Tag>) {
    && addr % 8 == 0 && IsList(tags)
    && |mem| <= 0x4000_0000 && addr / 4 + 2 + |Serialised(tags)| <= |mem|
    && mem[addr / 4 + 2..addr / 4 + 2 + |Serialised(tags)|] == Serialised(tags)
  }

  lemma HeaderInMemory(mem: seq<u32>, addr: u32, tags: seq<Tag>, n: nat)
    requires Holds(mem, addr, tags) && n <= |tags|
    ensures var w := addr / 4 + 2 + Offset(tags, n) / 4;
      && (addr + 8 + Offset(tags, n)) / 4 == w && w + 1 < |mem|
      && if n < |tags| then mem[w] == tags[n].kind && mem[w + 1] == tags[n].size else mem[w] == TYPE_END
  {
    HeaderAt(tags, n);
    var w := Offset(tags, n) / 4;
    var words := mem[addr / 4 + 2..addr / 4 + 2 + |Serialised(tags)|];
    assert words[w] == mem[addr / 4 + 2 + w] && words[w + 1] == mem[addr / 4 + 2 + w + 1];
  }

  /** The loop's step: the size rounded up to a multiple of 8 is added to the pointer. */
  function Next(tag: u32, size: u32): u32 {
    Wrap(tag + Wrap(size + 7) / 8 * 8)
  }

  lemma NextSkipsPadding(tag: u32, t: Tag)
    requires WellFormed(t) && tag + 8 + 4 * |t.payload| < 0x1_0000_0000
    ensures Next(tag, t.size) == tag + 8 + 4 * |t.payload|
  {
  }

  /** The pointer is at tag n, or at the END tag behind the last. */
  ghost predicate At(mem: seq<u32>, addr: u32, tags: seq<Tag>, n: nat, tag: u32)
    requires n <= |tags|
  {
    && tag == addr + 8 + Offset(tags, n) && tag / 4 + 1 < |mem|
    && if n < |tags| then mem[tag / 4] == tags[n].kind != TYPE_END && mem[tag / 4 + 1] == tags[n].size
       else mem[tag / 4] == TYPE_END
  }

  lemma WalkStarts(mem: seq<u32>, addr: u32, tags: seq<Tag>)
    requires Holds(mem, addr, tags)
    ensures addr + 8 < 0x1_0000_0000 && At(mem, addr, tags, 0, addr + 8)
  {
    HeaderInMemory(mem, addr, tags, 0);
    if tags != [] {
      assert tags[0] in tags;
    }
  }

  /** The code's step leads from one tag to the next. */
  lemma WalkSteps(mem: seq<u32>, addr: u32, tags: seq<Tag>, n: nat, tag: u32)
    requires Holds(mem, addr, tags) && n < |tags| && At(mem, addr, tags, n, tag)
    ensures At(mem, addr, tags, n + 1, Next(tag, mem[tag / 4 + 1]))
  {
    HeaderInMemory(mem, addr, tags, n + 1);
    assert tags[n] in tags;
    NextSkipsPadding(tag, tags[n]);
    if n + 1 < |tags| {
      assert tags[n + 1] in tags;
    }
  }

  /** The addresses of the first n tags and of what follows them. */
  ghost function Addresses(tags: seq<Tag>, base: nat, n: nat): (addresses: seq<nat>)
    requires n <= |tags|
    ensures |addresses| == n + 1
  {
    if n == 0 then [base] else Addresses(tags, base, n - 1) + [base + Offset(tags, n)]
  }

  /** One more address. */
  ghost function Visit(visited: seq<nat>, tags: seq<Tag>, base: nat, n: nat, tag: nat): (more: seq<nat>)
    requires n < |tags| && visited == Addresses(tags, base, n) && tag == base + Offset(tags, n + 1)
    ensures more == Addresses(tags, base, n + 1)
  {
    visited + [tag]
  }

  lemma {:induction false} AddressesMeaning(tags: seq<Tag>, base: nat, n: nat, i: nat)
    requires i <= n <= |tags|
    ensures Addresses(tags, base, n)[i] == base + Offset(tags, i)
    decreases n
  {
    if i < n {
      AddressesMeaning(tags, base, n - 1, i);
    }
  }

  /** The address of the last of the first n tags that has the given type, or NULL. */
  ghost function LastOf(tags: seq<Tag>, base: nat, kind: u32, n: nat): nat
    requires n <= |tags|
  {
    if n == 0 then 0
    else if tags[n - 1].kind == kind then base + Offset(tags, n - 1)
    else LastOf(tags, base, kind, n - 1)
  }

  /** A field is NULL exactly when the list has no tag of its type; otherwise it points to the last one. */
  lemma {:induction false} LastOfMeaning(tags: seq<Tag>, base: nat, kind: u32, n: nat)
    requires n <= |tags| && base > 0
    ensures LastOf(tags, base, kind, n) == 0 <==> forall i :: 0 <= i < n ==> tags[i].kind != kind
  {
    if n > 0 && tags[n - 1].kind != kind {
      LastOfMeaning(tags, base, kind, n - 1);
    }
  }

  lemma {:induction false} LastOfIsLast(tags: seq<Tag>, base: nat, kind: u32, n: nat, i: nat)
    requires i < n <= |tags| && tags[i].kind == kind
    requires forall j :: i < j < n ==> tags[j].kind != kind
    ensures LastOf(tags, base, kind, n) == base + Offset(tags, i)
    decreases n
  {
    if i < n - 1 {
      LastOfIsLast(tags, base, kind, n - 1, i);
    }
  }

  /** multiboot_tags_info_t: addresses of tags, 0 for NULL. */
  class TagsInfo {
    var basicMeminfo: u32
    var biosBootdev: u32
    var modules: u32
    var elfSymbols: u32
    var memoryMap: u32
    var acpiOld: u32
    var acpiNew: u32

    /** The fields record the first n tags of a list that starts at base. */
    ghost predicate Records(tags: seq<Tag>, base: nat, n: nat)
      requires n <= |tags|
      reads this
    {
      && basicMeminfo == LastOf(tags, base, 4, n)
      && biosBootdev == LastOf(tags, base, 5, n)
      && modules == LastOf(tags, base, 3, n)
      && elfSymbols == LastOf(tags, base, 9, n)
      && memoryMap == LastOf(tags, base, 6, n)
      && acpiOld == LastOf(tags, base, 14, n)
      && acpiNew == LastOf(tags, base, 15, n)
    }

    /** The chain of tests on a tag's type. */
    method Record(kind: u32, tag: u32, ghost tags: seq<Tag>, ghost base: nat, ghost n: nat)
      requires n < |tags| && Records(tags, base, n)
      requires kind == tags[n].kind && tag == base + Offset(tags, n)
      modifies this
      ensures Records(tags, base, n + 1)
    {
      if kind == TYPE_BASIC_MEMINFO {
        basicMeminfo := tag;
      } else if kind == TYPE_BOOTDEV {
        biosBootdev := tag;
      } else if kind == TYPE_MODULE {
        modules := tag;
      } else if kind == TYPE_ELF_SECTIONS {
        elfSymbols := tag;
      } else if kind == TYPE_MMAP {
        memoryMap := tag;
      } else if kind == TYPE_ACPI_OLD {
        acpiOld := tag;
      } else if kind == TYPE_ACPI_NEW {
        acpiNew := tag;
      }
    }

    /** The memset: nothing is recorded yet. */
    method Clear(ghost tags: seq<Tag>, ghost base: nat)
      modifies this
      ensures Records(tags, base, 0)
    {
      basicMeminfo, biosBootdev, modules, elfSymbols, memoryMap, acpiOld, acpiNew := 0, 0, 0, 0, 0, 0, 0;
    }

    /** The body of the loop: records a tag and steps to the next one. */
    method Step(mem: array<u32>, tag: u32, ghost image: seq<u32>, ghost addr: u32, ghost tags: seq<Tag>, ghost n: nat)
      returns (next: u32)
      requires image == mem[..] && Holds(image, addr, tags) && n < |tags| && At(image, addr, tags, n, tag)
      requires Records(tags, addr + 8, n)
      modifies this
      ensures At(image, addr, tags, n + 1, next) && Records(tags, addr + 8, n + 1)
    {
      WalkSteps(image, addr, tags, n, tag);
      Record(mem[tag / 4], tag, tags, addr + 8, n);
      next := Next(tag, mem[tag / 4 + 1]);
    }

    /** load_tags, over word-addressed memory that holds a serialised list 8 bytes behind addr. It visits
        the tags in order, once each, and the END tag last. */
    method LoadTags(mem: array<u32>, addr: u32, ghost tags: seq<Tag>) returns (ghost visited: seq<nat>)
      requires Holds(mem[..], addr, tags)
      modifies this
      ensures Records(tags, addr + 8, |tags|)
      ensures visited == Addresses(tags, addr + 8, |tags|)
    {
      Clear(tags, addr + 8);
      ghost var image, n := mem[..], 0;
      visited := [addr + 8];
      WalkStarts(image, addr, tags);
      var tag: u32 := addr + 8;
      while mem[tag / 4] != TYPE_END
        invariant image == mem[..] && n <= |tags| && At(image, addr, tags, n, tag)
        invariant Records(tags, addr + 8, n)
        invariant visited == Addresses(tags, addr + 8, n)
        decreases |tags| - n
      {
        tag := Step(mem, tag, image, addr, tags, n);
        visited := Visit(visited, tags, addr + 8, n, tag);
        n := n + 1;
      }
    }
  }
}
