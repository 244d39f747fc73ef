/** Bounded byte memories that allocate a page only when something is written to it. */
module SparseMemory {
  import opened Machine
  import opened Options

  const PAGE: nat := 4096

  function Base(p: nat): nat {
    p * 4096
  }

  function PageOf(o: nat): (p: nat)
    ensures Base(p) <= o < Base(p) + PAGE
  {
    o / 4096
  }

  function Within(o: nat): (r: nat)
    ensures r < PAGE && o == Base(PageOf(o)) + r
  {
    o % 4096
  }

  lemma PageUnique(o: nat, p: nat)
    ensures Base(p) <= o < Base(p) + PAGE <==> PageOf(o) == p
    ensures p <= PageOf(o) <==> Base(p) <= o
  {
  }

  function Zeros(n: nat): (s: seq<Byte>)
    ensures |s| == n && forall i :: 0 <= i < n ==> s[i] == 0
  {
    seq(n, _ => 0)
  }

  /** `s` with `bytes` in place of what was at `offset`. */
  function Overwrite(s: seq<Byte>, offset: nat, bytes: seq<Byte>): (r: seq<Byte>)
    requires offset + |bytes| <= |s|
    ensures |r| == |s|
    ensures forall i :: 0 <= i < |r| ==> r[i] == if offset <= i < offset + |bytes| then bytes[i - offset] else s[i]
  {
    s[..offset] + bytes + s[offset + |bytes|..]
  }

  // ---------------------------------------------------------------- pages

  type Pages = map<nat, seq<Byte>>

  ghost predicate Paged(pages: Pages) {
    forall p :: p in pages ==> |pages[p]| == PAGE
  }

  /** The byte at an address; pages that do not exist are zero. */
  ghost function ByteAt(pages: Pages, o: nat): Byte
    requires Paged(pages)
  {
    if PageOf(o) in pages then pages[PageOf(o)][Within(o)] else 0
  }

  /** Part of one page. */
  function Load(pages: Pages, o: nat, count: nat): (piece: seq<Byte>)
    requires Paged(pages) && Within(o) + count <= PAGE
    ensures |piece| == count && forall i :: 0 <= i < count ==> piece[i] == ByteAt(pages, o + i)
  {
    InOnePage(o, count);
    if PageOf(o) in pages then pages[PageOf(o)][Within(o)..Within(o) + count] else Zeros(count)
  }

  lemma InOnePage(o: nat, count: nat)
    requires Within(o) + count <= PAGE
    ensures forall j: nat :: o <= j < o + count ==> PageOf(j) == PageOf(o) && Within(j) == Within(o) + (j - o)
  {
  }

  /** Writing part of one page changes just the bytes addressed. */
  function Store(pages: Pages, o: nat, bytes: seq<Byte>): (after: Pages)
    requires Paged(pages) && Within(o) + |bytes| <= PAGE
    ensures Paged(after) && after.Keys == pages.Keys + {PageOf(o)}
    ensures forall i: nat :: ByteAt(after, i) == if o <= i < o + |bytes| then bytes[i - o] else ByteAt(pages, i)
  {
    var page := if PageOf(o) in pages then pages[PageOf(o)] else Zeros(PAGE);
    var after := pages[PageOf(o) := Overwrite(page, Within(o), bytes)];
    assert forall i: nat :: o <= i < o + |bytes| ==> PageOf(i) == PageOf(o);
    after
  }

  lemma Drop(pages: Pages, p: nat)
    requires Paged(pages)
    ensures Paged(pages - {p})
    ensures forall i: nat :: ByteAt(pages - {p}, i) == if PageOf(i) == p then 0 else ByteAt(pages, i)
  {
  }

  /** Some byte of the page is in the range. */
  ghost predicate Touches(p: nat, offset: nat, length: nat) {
    0 < length && PageOf(offset) <= p <= PageOf(offset + length - 1)
  }

  /** Every byte of the page is in the range. */
  ghost predicate Covers(p: nat, offset: nat, length: nat) {
    offset <= Base(p) && Base(p) + PAGE <= offset + length
  }

  /** Pieces that end at page boundaries touch one page each. */
  lemma TouchesMore(offset: nat, n: nat, o: nat, count: nat, length: nat)
    requires o == offset + n && length == n + count
    requires 0 < count <= PAGE - Within(o) && (n == 0 || Within(o) == 0)
    ensures forall p: nat :: Touches(p, offset, length) <==> Touches(p, offset, n) || p == PageOf(o)
  {
    hide PageOf, Within, Base, Touches;
    InOnePage(o, count);
    Monotone(offset, o);
    if 0 < n {
      PreviousPage(o);
    }
    forall p: nat
      ensures Touches(p, offset, length) <==> Touches(p, offset, n) || p == PageOf(o)
    {
      TouchesTo(p, offset, length, o + count - 1);
      TouchesTo(p, offset, n, o - 1);
    }
  }

  lemma Monotone(a: nat, b: nat)
    requires a <= b
    ensures PageOf(a) <= PageOf(b)
  {
  }

  lemma PreviousPage(o: nat)
    requires 0 < o && Within(o) == 0
    ensures PageOf(o - 1) == PageOf(o) - 1
  {
    PageUnique(o - 1, PageOf(o) - 1);
  }

  lemma TouchesTo(p: nat, offset: nat, length: nat, last: int)
    requires last == offset + length - 1
    ensures Touches(p, offset, length) <==> 0 < length && PageOf(offset) <= p <= PageOf(last)
  {
  }

  lemma TouchedInBounds(offset: nat, length: nat, size: nat)
    requires offset + length <= size
    ensures forall p: nat :: Touches(p, offset, length) ==> Base(p) < size
  {
  }

  /** Of a page the range touches, the bytes from `begin` up to `end` are those in the range. */
  lemma PageSlice(p: nat, offset: nat, last: nat)
    requires offset <= last && PageOf(offset) <= p <= PageOf(last)
    ensures var base := Base(p);
      var begin, end := if offset > base then offset - base else 0, if p == PageOf(last) then Within(last) + 1
        else PAGE;
      && begin < end <= PAGE && Within(base + begin) == begin && PageOf(base + begin) == p
      && (forall o: nat :: PageOf(o) == p ==> (offset <= o <= last <==> base + begin <= o < base + end))
      && (forall o: nat :: base + begin <= o < base + end ==> PageOf(o) == p)
      && (begin == 0 && end == PAGE <==> Covers(p, offset, last - offset + 1))
  {
  }

  lemma PageOutside(p: nat, offset: nat, last: nat)
    requires offset <= last && !(PageOf(offset) <= p <= PageOf(last))
    ensures forall o: nat :: PageOf(o) == p ==> !(offset <= o <= last)
    ensures !Covers(p, offset, last - offset + 1)
  {
  }

  /** `after` is `before` with `bytes` at `offset`, and only the pages written to were added. */
  ghost predicate Written(before: Pages, after: Pages, offset: nat, bytes: seq<Byte>)
    requires Paged(before)
  {
    && Paged(after)
    && (forall o: nat :: ByteAt(after, o) == if offset <= o < offset + |bytes| then bytes[o - offset]
         else ByteAt(before, o))
    && (forall p :: p in after <==> p in before || Touches(p, offset, |bytes|))
  }

  lemma NothingWritten(pages: Pages, offset: nat)
    requires Paged(pages)
    ensures Written(pages, pages, offset, [])
  {
  }

  lemma WriteOn(before: Pages, now: Pages, offset: nat, bytes: seq<Byte>, piece: seq<Byte>)
    requires Paged(before) && Written(before, now, offset, bytes)
    requires 0 < |piece| <= PAGE - Within(offset + |bytes|) && (bytes == [] || Within(offset + |bytes|) == 0)
    ensures Written(before, Store(now, offset + |bytes|, piece), offset, bytes + piece)
  {
    hide ByteAt, PageOf, Within, Base, Touches, Store;
    var o := offset + |bytes|;
    TouchesMore(offset, |bytes|, o, |piece|, |bytes + piece|);
    var after := Store(now, o, piece);
    forall i: nat
      ensures ByteAt(after, i) == if offset <= i < offset + |bytes + piece| then (bytes + piece)[i - offset]
        else ByteAt(before, i)
    {
      assert ByteAt(after, i) == if o <= i < o + |piece| then piece[i - o] else ByteAt(now, i);
    }
    assert |bytes + piece| == |bytes| + |piece|;
  }

  lemma WrittenInBounds(before: Pages, after: Pages, offset: nat, bytes: seq<Byte>, size: nat)
    requires Paged(before) && Written(before, after, offset, bytes) && offset + |bytes| <= size
    requires forall p :: p in before ==> Base(p) < size
    ensures forall p :: p in after ==> Base(p) < size
  {
    TouchedInBounds(offset, |bytes|, size);
  }

  /** `after` is `before` cleared from `offset` to `last` on the pages already visited. */
  ghost predicate Cleared(before: Pages, after: Pages, offset: nat, last: nat, todo: set<nat>)
    requires Paged(before) && offset <= last
  {
    && Paged(after) && todo <= after.Keys <= before.Keys
    && (forall p :: p in before && p !in todo ==> (p in after <==> !Covers(p, offset, last - offset + 1)))
    && (forall o: nat :: ByteAt(after, o) ==
          if offset <= o <= last && PageOf(o) in before && PageOf(o) !in todo then 0 else ByteAt(before, o))
  }

  /** Clears the part of page `p` that is in the range. */
  function ClearPage(pages: Pages, p: nat, offset: nat, last: nat): Pages
    requires Paged(pages) && offset <= last && p in pages
  {
    if PageOf(offset) <= p <= PageOf(last) then
      var base := Base(p);
      var begin := if offset > base then offset - base else 0;
      var end := if p == PageOf(last) then Within(last) + 1 else PAGE;
      PageSlice(p, offset, last);
      if begin == 0 && end == PAGE then pages - {p} else Store(pages, base + begin, Zeros(end - begin))
    else pages
  }

  lemma ClearOn(before: Pages, now: Pages, p: nat, offset: nat, last: nat, todo: set<nat>)
    requires Paged(before) && offset <= last && Cleared(before, now, offset, last, todo) && p in todo
    ensures Cleared(before, ClearPage(now, p, offset, last), offset, last, todo - {p})
  {
    hide ByteAt, PageOf, Within, Base, Covers;
    if PageOf(offset) <= p <= PageOf(last) {
      PageSlice(p, offset, last);
      Drop(now, p);
    } else {
      PageOutside(p, offset, last);
    }
  }

  // ---------------------------------------------------------------- the memory

  class Memory {
    const size: U64
    var pages: Pages

    ghost predicate Valid()
      reads this
    {
      0 < size && Paged(pages) && forall p :: p in pages ==> Base(p) < size
    }

    /** The memory as one flat array. */
    ghost function Flat(): (s: seq<Byte>)
      reads this
      requires Valid()
      ensures |s| == size
      ensures forall o :: 0 <= o < size ==> s[o] == ByteAt(pages, o)
    {
      var now := pages;
      seq(size, o requires 0 <= o && Paged(now) => ByteAt(now, o))
    }

    constructor (n: U64)
      requires 0 < n
      ensures Valid() && size == n && Flat() == Zeros(n) && pages == map[]
    {
      size, pages := n, map[];
    }

    ghost predicate InBounds(offset: U64, length: nat) {
      offset <= size && length <= size - offset
    }

    method Read(offset: U64, length: nat) returns (bytes: Option<seq<Byte>>)
      requires Valid()
      ensures bytes.Some? <==> InBounds(offset, length)
      ensures bytes.Some? ==> bytes.value == Flat()[offset..offset + length]
    {
      if offset > size || length > size - offset {
        return None;
      }
      hide ByteAt;
      var out: seq<Byte> := [];
      while |out| < length
        invariant |out| <= length
        invariant forall i :: 0 <= i < |out| ==> out[i] == ByteAt(pages, offset + i)
        decreases length - |out|
      {
        var o := offset + |out|;
        var room := PAGE - Within(o);
        out := out + Load(pages, o, if length - |out| < room then length - |out| else room);
      }
      bytes := Some(out);
    }

    /** Changes exactly the addressed bytes, and allocates only pages it writes to. */
    method Write(offset: U64, bytes: seq<Byte>) returns (ok: bool)
      requires Valid()
      modifies this
      ensures Valid()
      ensures ok <==> InBounds(offset, |bytes|)
      ensures Flat() == if ok then Overwrite(old(Flat()), offset, bytes) else old(Flat())
      ensures ok ==> forall p :: p in pages <==> p in old(pages) || Touches(p, offset, |bytes|)
      ensures !ok ==> pages == old(pages)
    {
      if offset > size || |bytes| > size - offset {
        return false;
      }
      var now := WritePages(offset, bytes);
      hide ByteAt, Touches, Base;
      WrittenInBounds(pages, now, offset, bytes, size);
      pages := now;
      ok := true;
    }

    method WritePages(offset: U64, bytes: seq<Byte>) returns (now: Pages)
      requires Valid()
      ensures Written(pages, now, offset, bytes)
    {
      hide ByteAt, PageOf, Within, Base, Written, Store;
      NothingWritten(pages, offset);
      var n: nat := 0;
      now := pages;
      while n < |bytes|
        invariant n <= |bytes| && Paged(now)
        invariant Written(pages, now, offset, bytes[..n])
        invariant n == 0 || n == |bytes| || Within(offset + n) == 0
        decreases |bytes| - n
      {
        var o := offset + n;
        var room := PAGE - Within(o);
        var count := if |bytes| - n < room then |bytes| - n else room;
        WriteOn(pages, now, offset, bytes[..n], bytes[n..n + count]);
        assert bytes[..n] + bytes[n..n + count] == bytes[..n + count];
        NextPage(o);
        now := Store(now, o, bytes[n..n + count]);
        n := n + count;
      }
      assert bytes[..n] == bytes;
    }

    /** Reads as zeros afterwards; drops pages that are wholly covered and never allocates one. */
    method Zero(offset: U64, length: nat) returns (ok: bool)
      requires Valid()
      modifies this
      ensures Valid()
      ensures ok <==> InBounds(offset, length)
      ensures Flat() == if ok then Overwrite(old(Flat()), offset, Zeros(length)) else old(Flat())
      ensures pages.Keys <= old(pages.Keys)
      ensures ok ==> forall p :: p in old(pages) ==> (p in pages <==> !Covers(p, offset, length))
    {
      if offset > size || length > size - offset {
        return false;
      }
      if length == 0 {
        return true;
      }
      hide ByteAt, Covers, Base, PageOf;
      ghost var last := offset + length - 1;
      var now := ClearPages(offset, length);
      NeverWritten(pages);
      pages := now;
      ok := true;
    }

    method ClearPages(offset: U64, length: nat) returns (now: Pages)
      requires Valid() && 0 < length
      ensures Cleared(pages, now, offset, offset + length - 1, {})
    {
      var last := offset + length - 1;
      hide Cleared, ClearPage;
      NothingCleared(pages, offset, last);
      var todo := pages.Keys;
      now := pages;
      while todo != {}
        invariant Cleared(pages, now, offset, last, todo)
        decreases todo
      {
        var p :| p in todo;
        Visiting(pages, now, offset, last, todo);
        ClearOn(pages, now, p, offset, last, todo);
        now := ClearPage(now, p, offset, last);
        todo := todo - {p};
      }
    }
  }

  lemma NothingCleared(pages: Pages, offset: nat, last: nat)
    requires Paged(pages) && offset <= last
    ensures Cleared(pages, pages, offset, last, pages.Keys)
  {
  }

  lemma Visiting(before: Pages, now: Pages, offset: nat, last: nat, todo: set<nat>)
    requires Paged(before) && offset <= last && Cleared(before, now, offset, last, todo)
    ensures Paged(now) && todo <= now.Keys
  {
  }

  lemma NextPage(o: nat)
    ensures Within(o + (PAGE - Within(o))) == 0
  {
  }

  lemma NeverWritten(pages: Pages)
    requires Paged(pages)
    ensures forall o: nat :: PageOf(o) !in pages ==> ByteAt(pages, o) == 0
  {
  }
}
