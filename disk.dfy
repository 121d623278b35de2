/**
  The heap file as the buffer pool sees it. The disk manager of the system
  addresses page `p` at byte offset `page_size * p` of one file; this model
  keeps that file as a map from page id to the bytes last written there.
 */
module Disk {

  /** A page identifier: an unsigned 64-bit integer. */
  newtype PageId = x: int | 0 <= x < 0x1_0000_0000_0000_0000

  /** Page contents, a byte buffer of the pool's page size. */
  type Page = seq<bv8>

  /** The heap file, page by page; a page that was never written is absent. */
  type DiskImage = map<PageId, Page>

  /** A zero-filled buffer of `n` bytes. */
  function Zeros(n: nat): (z: Page)
    ensures |z| == n
    ensures forall i :: 0 <= i < n ==> z[i] == 0
  {
    seq(n, _ => 0)
  }

  /**
    The bytes a read of page `p` leaves in a zero-filled buffer of
    `pageSize` bytes: what was last written there, or zeros.
   */
  function ReadPage(disk: DiskImage, p: PageId, pageSize: nat): (data: Page)
  {
    if p in disk then disk[p] else Zeros(pageSize)
  }

  /** Writing a page replaces what the disk holds at that page only. */
  function WritePage(disk: DiskImage, p: PageId, data: Page): (after: DiskImage)
    ensures after.Keys == disk.Keys + {p}
    ensures after[p] == data
    ensures forall q :: q in disk && q != p ==> after[q] == disk[q]
  {
    disk[p := data]
  }

  /** A page read back after a write returns the written bytes; other pages keep theirs. */
  lemma ReadAfterWrite(disk: DiskImage, p: PageId, q: PageId, data: Page, pageSize: nat)
    ensures ReadPage(WritePage(disk, p, data), q, pageSize)
            == if p == q then data else ReadPage(disk, q, pageSize)
  {
  }

  /** A page that was never written reads as `pageSize` zero bytes. */
  lemma ReadUnwritten(disk: DiskImage, p: PageId, pageSize: nat)
    requires p !in disk
    ensures |ReadPage(disk, p, pageSize)| == pageSize
    ensures forall i :: 0 <= i < pageSize ==> ReadPage(disk, p, pageSize)[i] == 0
  {
  }
}
