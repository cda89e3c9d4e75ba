/** Page arithmetic of the EEPROM driver: where a page starts in the chip's
    16-bit address space, how many pages the driver reports for a buffer,
    and how the transfer loop cuts a buffer into page-sized chunks. */
module Paging {
  import opened Hal
  import opened Arith

  function Min(a: nat, b: nat): nat
  {
    if a < b then a else b
  }

  /** getCountOfPagesFor: size / pageSize + 1, truncated to 16 bits. Below the
      truncation this is the unique page count whose span strictly exceeds the
      buffer while one page fewer does not: an exact multiple gets a whole
      extra page. The truncation only bites for a page size of 1 and a
      65535-byte buffer. */
  function CountOfPagesFor(pageSize: u16, size: u16): (r: u16)
    requires pageSize > 0
    ensures r != 0 ==> (r - 1) * pageSize <= size < r * pageSize
    ensures r == 0 <==> pageSize == 1 && size == 0xFFFF
  {
    var q := size / pageSize;
    DivBounds(size, pageSize);
    assert q <= 0xFFFF by { DivAtMost(size, pageSize); }
    assert q == 0xFFFF ==> pageSize == 1 by {
      if pageSize > 1 && size > 0 { DivShrinks(size, pageSize); }
    }
    (q + 1) % ADDRESS_SPACE
  }

  /** getPageMemoryAddress: page * pageSize, truncated to 16 bits. */
  function PageAddress(pageSize: u16, page: u16): (r: u16)
    ensures page * pageSize < ADDRESS_SPACE ==> r == page * pageSize
  {
    var p := page * pageSize;
    assert p < ADDRESS_SPACE ==> p % ADDRESS_SPACE == p by {
      if p < ADDRESS_SPACE { ModInRange(p); }
    }
    p % ADDRESS_SPACE
  }

  /** Lengths of the chunks the transfer loop cuts a `size`-byte buffer into. */
  function Chunks(pageSize: nat, size: nat): (r: seq<nat>)
    requires pageSize > 0
    decreases size
  {
    if size == 0 then []
    else
      var n := Min(pageSize, size);
      [n] + Chunks(pageSize, size - n)
  }

  function Sum(s: seq<nat>): nat
  {
    if s == [] then 0 else s[0] + Sum(s[1..])
  }

  /** Every chunk is non-empty and at most a page, and together the chunks
      cover the buffer exactly. */
  lemma {:induction false} ChunksCover(pageSize: nat, size: nat)
    requires pageSize > 0
    ensures Sum(Chunks(pageSize, size)) == size
    ensures forall j :: 0 <= j < |Chunks(pageSize, size)| ==> 0 < Chunks(pageSize, size)[j] <= pageSize
    decreases size
  {
    if size > 0 {
      var n := Min(pageSize, size);
      ChunksCover(pageSize, size - n);
      assert Chunks(pageSize, size)[1..] == Chunks(pageSize, size - n);
    }
  }

  /** The chunk count is the ceiling of size / pageSize. */
  lemma {:induction false} ChunkCount(pageSize: nat, size: nat)
    requires pageSize > 0
    ensures |Chunks(pageSize, size)| == (size + pageSize - 1) / pageSize
    decreases size
  {
    if size == 0 {
      DivUnique(pageSize - 1, pageSize, 0);
    } else if size <= pageSize {
      DivUnique(size + pageSize - 1, pageSize, 1);
    } else {
      ChunkCount(pageSize, size - pageSize);
      CeilingStep(size - 1, pageSize);
    }
  }

  /** Chunk j starts j pages into the buffer and is a full page unless it is the last. */
  lemma {:induction false} ChunkAt(pageSize: nat, size: nat, j: nat)
    requires pageSize > 0 && j < |Chunks(pageSize, size)|
    ensures j * pageSize < size
    ensures Chunks(pageSize, size)[j] == Min(pageSize, size - j * pageSize)
    decreases size
  {
    var n := Min(pageSize, size);
    assert Chunks(pageSize, size) == [n] + Chunks(pageSize, size - n);
    if j > 0 {
      assert n == pageSize;
      ChunkAt(pageSize, size - pageSize, j - 1);
      assert (j - 1) * pageSize == j * pageSize - pageSize;
    }
  }

  /** Where the checksum record goes: page + CountOfPagesFor(size). Its
      distance from the first data page is the number of data chunks, plus
      one on an exact multiple of the page size, and its first byte lies
      past the buffer's span. */
  lemma CrcPageAfterData(pageSize: u16, size: u16)
    requires pageSize > 0 && !(pageSize == 1 && size == 0xFFFF)
    ensures var pages := CountOfPagesFor(pageSize, size);
      && pages == |Chunks(pageSize, size)| + (if size % pageSize == 0 then 1 else 0)
      && pages * pageSize > size
  {
    var pages := CountOfPagesFor(pageSize, size);
    ChunkCount(pageSize, size);
    CeilingOf(size, pageSize);
    DivUnique(size, pageSize, pages - 1);
  }

  /** The address of the page `shift` pages after `page` is `shift` pages past
      `page`'s address, with both sides wrapping at 16 bits. */
  lemma PageAddressShift(pageSize: u16, page: u16, shift: nat)
    ensures PageAddress(pageSize, (page + shift) % ADDRESS_SPACE)
         == Addr(PageAddress(pageSize, page), shift * pageSize)
  {
    var p := page + shift;
    var w := p % ADDRESS_SPACE;
    // w * pageSize and p * pageSize differ by a multiple of the address space
    assert p == w + ADDRESS_SPACE * (p / ADDRESS_SPACE);
    assert p * pageSize == w * pageSize + ADDRESS_SPACE * ((p / ADDRESS_SPACE) * pageSize);
    ModMultiple(w * pageSize, (p / ADDRESS_SPACE) * pageSize);
    // and page * pageSize is page's address plus a multiple of the address space
    var a := page * pageSize;
    assert a == a % ADDRESS_SPACE + ADDRESS_SPACE * (a / ADDRESS_SPACE);
    assert p * pageSize == a % ADDRESS_SPACE + shift * pageSize + ADDRESS_SPACE * (a / ADDRESS_SPACE);
    ModMultiple(a % ADDRESS_SPACE + shift * pageSize, a / ADDRESS_SPACE);
  }

  /** Page j's address is one page past page j - 1's; page 0 is the start. */
  lemma AddrPages(addr: u16, pageSize: nat, j: nat)
    ensures j == 0 ==> Addr(addr, j * pageSize) == addr
    ensures j > 0 ==> Addr(Addr(addr, pageSize), (j - 1) * pageSize) == Addr(addr, j * pageSize)
  {
    if j > 0 {
      AddrShift(addr, pageSize, (j - 1) * pageSize, j * pageSize);
    }
  }
}
