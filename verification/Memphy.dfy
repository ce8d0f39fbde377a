/**
  Storage devices in random-access mode (src/mm-memphy.c): a byte array and a list of free frames, and the
  byte-by-byte copy of a page between devices (src/mm.c:299-315), proved against Paging.Device.
*/
module Memphy {
  import opened Common
  import opened Pte
  import opened Paging

  /** The bytes of one frame. */
  function FrameBytes(s: seq<Byte>, f: nat): Page
    requires (f + 1) * PAGE_SIZE <= |s|
  {
    s[f * PAGE_SIZE..(f + 1) * PAGE_SIZE]
  }

  /** Storage seen frame by frame; bytes after the last whole frame belong to no frame. */
  function Frames(s: seq<Byte>): seq<Page> {
    seq(|s| / PAGE_SIZE, f requires 0 <= f < |s| / PAGE_SIZE => FrameBytes(s, f))
  }

  lemma ZeroFrames(s: seq<Byte>)
    requires forall i :: 0 <= i < |s| ==> s[i] == 0
    ensures Frames(s) == Format(|s| / PAGE_SIZE).pages
  {
    forall f | 0 <= f < |s| / PAGE_SIZE ensures FrameBytes(s, f) == ZERO_PAGE {
    }
  }

  lemma ByteOfFrame(s: seq<Byte>, f: nat, off: nat)
    requires f < |s| / PAGE_SIZE && off < PAGE_SIZE
    ensures f * PAGE_SIZE + off < |s| && Frames(s)[f][off] == s[f * PAGE_SIZE + off]
  {
  }

  /** One byte of storage is one byte of one frame. */
  lemma StoreInFrame(s: seq<Byte>, f: nat, off: nat, v: Byte)
    requires f < |s| / PAGE_SIZE && off < PAGE_SIZE
    ensures Frames(s)[f][off] == s[f * PAGE_SIZE + off]
    ensures Frames(s[f * PAGE_SIZE + off := v]) == StoreAt(Frames(s), f, off, v)
  {
    var s' := s[f * PAGE_SIZE + off := v];
    forall g | 0 <= g < |s| / PAGE_SIZE ensures Frames(s')[g] == StoreAt(Frames(s), f, off, v)[g] {
      assert g == f ==> FrameBytes(s', g) == FrameBytes(s, g)[off := v];
      assert g != f ==> FrameBytes(s', g) == FrameBytes(s, g);
    }
  }

  /** The first `n` bytes of frame `f` have been overwritten with those of `page`. */
  predicate CopiedTo(s: seq<Byte>, s': seq<Byte>, f: nat, page: Page, n: nat) {
    && |s'| == |s| && n <= PAGE_SIZE
    && forall k :: 0 <= k < |s| ==>
         s'[k] == if f * PAGE_SIZE <= k < f * PAGE_SIZE + n then page[k - f * PAGE_SIZE] else s[k]
  }

  lemma CopiedFrame(s: seq<Byte>, s': seq<Byte>, f: nat, page: Page)
    requires f < |s| / PAGE_SIZE && CopiedTo(s, s', f, page, PAGE_SIZE)
    ensures Frames(s') == Frames(s)[f := page]
  {
    forall g | 0 <= g < |s| / PAGE_SIZE ensures FrameBytes(s', g) == if g == f then page else FrameBytes(s, g) {
    }
  }

  class MemphyStruct {
    const storage: array<Byte>
    var free: seq<nat>

    ghost function View(): Device
      reads this, storage
    {
      Device(Frames(storage[..]), free)
    }

    /** init_memphy. */
    constructor (maxsz: nat)
      ensures fresh(storage) && storage.Length == maxsz
      ensures View() == Paging.Format(maxsz / PAGE_SIZE)
    {
      storage := new Byte[maxsz](_ => 0);
      free := [];
      new;
      Format();
      ZeroFrames(storage[..]);
    }

    /** MEMPHY_format: the list is built from its head by appending one node at a time. */
    method Format()
      requires free == []
      modifies `free
      ensures free == UpTo(storage.Length / PAGE_SIZE)
    {
      var numfp := storage.Length / PAGE_SIZE;
      if numfp <= 0 {
        return;
      }
      free := [0];
      var iter := 1;
      while iter < numfp
        invariant 1 <= iter <= numfp
        invariant free == UpTo(iter)
      {
        free := free + [iter];
        iter := iter + 1;
      }
    }

    /** MEMPHY_get_freefp. */
    method GetFreeFp() returns (ok: bool, fpn: nat)
      modifies `free
      ensures ok <==> old(free) != []
      ensures ok ==> fpn == old(free)[0] && free == old(free)[1..]
      ensures !ok ==> free == old(free)
    {
      if free == [] {
        return false, 0;
      }
      ok, fpn := true, free[0];
      free := free[1..];
    }

    /** MEMPHY_put_freefp. */
    method PutFreeFp(fpn: nat)
      modifies `free
      ensures free == [fpn] + old(free)
    {
      free := [fpn] + free;
    }

    /** MEMPHY_read. */
    method Read(addr: nat) returns (v: Byte)
      requires addr < storage.Length
      ensures v == storage[addr]
    {
      v := storage[addr];
    }

    /** MEMPHY_write. */
    method Write(addr: nat, v: Byte)
      requires addr < storage.Length
      modifies storage
      ensures storage[..] == old(storage[..])[addr := v]
    {
      storage[addr] := v;
    }
  }

  /** __swap_cp_page. */
  method SwapCpPage(src: MemphyStruct, srcfpn: nat, dst: MemphyStruct, dstfpn: nat)
    requires src.storage != dst.storage
    requires srcfpn < src.storage.Length / PAGE_SIZE && dstfpn < dst.storage.Length / PAGE_SIZE
    modifies dst.storage
    ensures dst.View() == old(dst.View()).(pages := old(dst.View()).pages[dstfpn := src.View().pages[srcfpn]])
  {
    ghost var before, page := dst.storage[..], FrameBytes(src.storage[..], srcfpn);
    var cellidx := 0;
    while cellidx < PAGE_SIZE
      invariant 0 <= cellidx <= PAGE_SIZE
      invariant CopiedTo(before, dst.storage[..], dstfpn, page, cellidx)
    {
      var data := src.Read(srcfpn * PAGE_SIZE + cellidx);
      dst.Write(dstfpn * PAGE_SIZE + cellidx, data);
      cellidx := cellidx + 1;
    }
    CopiedFrame(before, dst.storage[..], dstfpn, page);
  }
}
