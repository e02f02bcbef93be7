/** The host's block images (boot/resources.c): sizes in sectors, bounded reads and writes. */
module BlockImage {
  import opened HostTypes
  import opened Slices

  const SECTOR: nat := 512
  const LLONG_MAX: nat := 0x7fff_ffff_ffff_ffff

  /** A selected block image; its size is the number of bytes it had when it was selected. */
  datatype Disk = Disk(image: seq<Byte>, writable: bool)

  /** Image sizes come from `off_t`; only the state image is writable, and its size was rounded. */
  ghost predicate ValidDisk(d: Disk) {
    |d.image| <= LLONG_MAX && (d.writable ==> |d.image| % SECTOR == 0)
  }

  function RoundUp(n: nat): (r: nat)
    ensures n <= r < n + SECTOR && r % SECTOR == 0
    ensures n % SECTOR == 0 ==> r == n
  {
    (n + SECTOR - 1) / SECTOR * SECTOR
  }

  lemma RoundUpMonotonic(m: nat, n: nat)
    requires m <= n
    ensures RoundUp(m) <= RoundUp(n)
  {
  }

  function Zeros(n: nat): (r: seq<Byte>)
    ensures |r| == n
    ensures forall i :: 0 <= i < n ==> r[i] == 0
  {
    seq(n, _ => 0)
  }

  /** The image with zeros up to the end of its last sector. */
  function Padded(image: seq<Byte>): (r: seq<Byte>)
    ensures |r| == RoundUp(|image|)
  {
    image + Zeros(RoundUp(|image|) - |image|)
  }

  // ---------------------------------------------------------------- the state image

  /** `ftruncate`. */
  function Resize(file: seq<Byte>, size: nat): (r: seq<Byte>)
    ensures |r| == size
  {
    if size <= |file| then file[..size] else file + Zeros(size - |file|)
  }

  /** `unsigned long long` arithmetic of the rounding. */
  function TargetSize(size: nat, minimum: nat): nat {
    var target := if size < minimum then minimum else size;
    if target % SECTOR != 0 then (target + SECTOR - 1) % ADDRESS_SPACE / SECTOR * SECTOR else target
  }

  /**
   `OrlixHostEnsureExistingStateBlockFile` on a regular file: the file afterwards, and its size unless the
   call fails.
   */
  function EnsureState(file: seq<Byte>, minimum: nat): (seq<Byte>, Option<nat>) {
    if minimum == 0 then (file, None)
    else
      var target := TargetSize(|file|, minimum);
      if target > LLONG_MAX then (file, None)
      else (Resize(file, target), if target == 0 then None else Some(target))
  }

  lemma TargetIsRounded(size: nat, minimum: nat)
    ensures var target := if size < minimum then minimum else size;
            target <= ADDRESS_SPACE - SECTOR ==> TargetSize(size, minimum) == RoundUp(target)
    ensures size <= minimum && ADDRESS_SPACE - SECTOR < minimum < ADDRESS_SPACE ==> TargetSize(size, minimum) == 0
  {
  }

  /** A selected state image is a valid writable disk that begins with the file and ends in zeros. */
  lemma StateIsValid(file: seq<Byte>, minimum: nat)
    requires |file| <= LLONG_MAX && minimum < ADDRESS_SPACE
    ensures EnsureState(file, minimum).1.Some? ==>
              var (image, size) := EnsureState(file, minimum);
              ValidDisk(Disk(image, true)) && size == Some(|image|) && |image| >= minimum && Padded(file) <= image
  {
    if EnsureState(file, minimum).1.Some? {
      hide TargetSize, RoundUp;
      TargetIsRounded(|file|, minimum);
      RoundUpMonotonic(|file|, if |file| < minimum then minimum else |file|);
      var image := EnsureState(file, minimum).0;
      assert forall i | 0 <= i < |Padded(file)| :: Padded(file)[i] == image[i];
    }
  }

  /**
   The file is kept as a prefix exactly when the minimum is at most 2^64 - 512. Above that the
   rounding wraps to zero, the file is cut to nothing, and only then the call fails.
   */
  lemma StateKeptExactly(file: seq<Byte>, minimum: nat)
    requires 0 < |file| <= LLONG_MAX && minimum < ADDRESS_SPACE
    ensures file <= EnsureState(file, minimum).0 <==> minimum <= ADDRESS_SPACE - SECTOR
    ensures minimum > ADDRESS_SPACE - SECTOR ==> EnsureState(file, minimum) == ([], None)
  {
    hide TargetSize, RoundUp;
    TargetIsRounded(|file|, minimum);
  }

  // ---------------------------------------------------------------- transfers

  /** The checks shared by reads and writes. */
  predicate InCapacity(disk: Disk, sector: nat, length: nat) {
    && length != 0 && sector <= (ADDRESS_SPACE - 1) / SECTOR
    && sector * SECTOR <= RoundUp(|disk.image|) && length <= RoundUp(|disk.image|) - sector * SECTOR
    && sector * SECTOR <= LLONG_MAX
  }

  /** `orlix_host_block_read`. */
  function HostRead(disk: Disk, sector: nat, length: nat): (r: Option<seq<Byte>>)
    ensures r.Some? ==> |r.value| == length
  {
    if !InCapacity(disk, sector, length) then None
    else
      var offset := sector * SECTOR;
      if offset >= |disk.image| then Some(Zeros(length))
      else
        var n := if |disk.image| - offset < length then |disk.image| - offset else length;
        Some(disk.image[offset..offset + n] + Zeros(length - n))
  }

  /** `orlix_host_block_write`; on a valid disk the write ends inside the image. */
  function HostWrite(disk: Disk, sector: nat, bytes: seq<Byte>): (r: Option<Disk>)
    requires ValidDisk(disk)
    ensures r.Some? ==> disk.writable && |r.value.image| == |disk.image| && r.value.writable
  {
    if !disk.writable || !InCapacity(disk, sector, |bytes|) then None
    else Some(disk.(image := Splice(disk.image, sector * SECTOR, bytes)))
  }

  /** On a valid disk the checks come down to one comparison with the padded size. */
  lemma CapacityExactly(disk: Disk, sector: nat, length: nat)
    requires ValidDisk(disk)
    ensures InCapacity(disk, sector, length) <==> length > 0 && sector * SECTOR + length <= |Padded(disk.image)|
  {
  }

  /** A read succeeds exactly inside the padded image, and returns that slice of it. */
  lemma ReadIsSlice(disk: Disk, sector: nat, length: nat)
    requires ValidDisk(disk)
    ensures HostRead(disk, sector, length).Some? <==> length > 0 && sector * SECTOR + length <= |Padded(disk.image)|
    ensures HostRead(disk, sector, length).Some? ==>
              HostRead(disk, sector, length).value == Padded(disk.image)[sector * SECTOR..sector * SECTOR + length]
  {
    CapacityExactly(disk, sector, length);
    if HostRead(disk, sector, length).Some? {
      var offset := sector * SECTOR;
      var slice, bytes := Padded(disk.image)[offset..offset + length], HostRead(disk, sector, length).value;
      forall i | 0 <= i < length
        ensures bytes[i] == slice[i]
      {
        assert slice[i] == Padded(disk.image)[offset + i];
      }
    }
  }
}
