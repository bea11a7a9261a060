/**
 The block device adapter: reads and writes of any length at any position, on
 top of a driver that only moves aligned blocks through a bounce buffer and may
 move fewer bytes than it was asked for.
 */
module BlockIo {
  import opened Bytes
  import Bits

  datatype Status = Ok | EIo

  /** The block number is passed to the driver as a C `int`. */
  const LBA_LIMIT: nat := 0x8000_0000

  /** Positions and sizes stay below this, so that no `size_t` sum wraps. */
  const SIZE_LIMIT: nat := 0x4000_0000_0000_0000

  function Min(a: nat, b: nat): nat {
    if a < b then a else b
  }

  /** `size_t` subtraction. */
  function Sub64(a: uint64, b: uint64): uint64 {
    if a >= b then a - b else a - b + 0x1_0000_0000_0000_0000
  }

  /** Device address of block `lba`. */
  function BlockStart(lba: nat, bs: nat): nat {
    if lba == 0 then 0 else BlockStart(lba - 1, bs) + bs
  }

  lemma {:induction false} BlockStartOf(x: nat, bs: nat)
    requires bs > 0
    ensures BlockStart(x / bs, bs) == x - x % bs
    decreases x
  {
    if x < bs {
      Bits.DivModUnique(x, bs, 0, x);
    } else {
      BlockStartOf(x - bs, bs);
      Bits.DivModUnique(x, bs, (x - bs) / bs + 1, (x - bs) % bs);
    }
  }

  lemma {:induction false} SkipOf(x: nat, base: nat, bs: nat)
    requires bs > 0 && Bits.Multiple(base, bs)
    ensures (x + base) % bs == x % bs
    decreases base
  {
    if base > 0 {
      SkipOf(x, base - bs, bs);
      Bits.DivModUnique(x + base, bs, (x + base - bs) / bs + 1, (x + base - bs) % bs);
    }
  }

  lemma {:induction false} MaskIsRemainder(pos: nat, bs: nat)
    requires bs > 0 && Bits.And(bs, bs - 1) == 0
    ensures Bits.And(pos, bs - 1) == pos % bs
  {
    Bits.PowerOfTwoTest(bs);
    var k: nat :| bs == Bits.Pow2(k);
    Bits.AndMask(pos, k);
  }

  /** A byte position splits into its block's start and the bytes to skip. */
  lemma {:induction false} BlockOf(pos: nat, base: nat, bs: nat)
    requires bs > 0 && Bits.Multiple(base, bs) && Bits.And(bs, bs - 1) == 0
    ensures BlockStart((pos + base) / bs, bs) + Bits.And(pos, bs - 1) == pos + base
  {
    MaskIsRemainder(pos, bs);
    SkipOf(pos, base, bs);
    BlockStartOf(pos + base, bs);
  }

  lemma {:induction false} BlockNumberFits(x: nat, bs: nat)
    requires bs > 0 && x < LBA_LIMIT * bs
    ensures x / bs < LBA_LIMIT
  {
    Bits.RoundDown(x, bs);
    Bits.MulBound(x / bs - LBA_LIMIT, bs);
  }

  function LbaOf(pos: nat, base: nat, bs: nat): nat
    requires bs > 0
  {
    (pos + base) / bs
  }

  lemma {:induction false} LbaLocates(pos: nat, base: nat, bs: nat)
    requires bs > 0 && Bits.Multiple(base, bs) && Bits.And(bs, bs - 1) == 0 && base + pos < LBA_LIMIT * bs
    ensures LbaOf(pos, base, bs) < LBA_LIMIT
    ensures BlockStart(LbaOf(pos, base, bs), bs) + Bits.And(pos, bs - 1) == base + pos
  {
    BlockOf(pos, base, bs);
    BlockNumberFits(pos + base, bs);
  }

  /** How much one iteration asks the driver for. */
  function RequestSize(skip: nat, left: nat, bs: nat, bufLen: nat): nat
    requires 0 < bs <= SIZE_LIMIT
  {
    if skip + left > bufLen then bufLen else Bits.Align(skip + left, bs)
  }

  /** Every request is a whole number of blocks and fits the bounce buffer. */
  lemma {:induction false} RequestFits(skip: nat, left: nat, bs: nat, bufLen: nat)
    requires 0 < bs <= SIZE_LIMIT && bufLen <= SIZE_LIMIT
    requires Bits.And(bs, bs - 1) == 0 && Bits.Multiple(bufLen, bs) && skip < bs && left > 0
    ensures var r := RequestSize(skip, left, bs, bufLen);
      && Bits.Multiple(r, bs) && r <= bufLen
      && (bufLen > 0 ==> r > skip)
      && (skip + left <= bufLen ==> skip + left <= r)
  {
    Bits.PowerOfTwoTest(bs);
    var k: nat :| bs == Bits.Pow2(k);
    if skip + left <= bufLen {
      Bits.AlignRoundsUp(skip + left, bs, k);
      Bits.MultipleGap(Bits.Align(skip + left, bs), bufLen, bs);
    }
  }

  /** `request &= ~(block_size - 1)`. */
  lemma {:induction false} RoundDownRequest(r: nat, bs: nat)
    requires 0 < bs <= SIZE_LIMIT && Bits.And(bs, bs - 1) == 0 && r <= SIZE_LIMIT
    ensures Bits.Multiple(Bits.And(r, Bits.TWO_64 - bs), bs)
    ensures Bits.And(r, Bits.TWO_64 - bs) < bs ==> r < bs
  {
    Bits.PowerOfTwoTest(bs);
    var k: nat :| bs == Bits.Pow2(k);
    var w := Bits.Width64();
    Bits.Pow2Exponent(k, w);
    Bits.AndInvertedMask(r, w, k);
    Bits.RoundDown(r, bs);
  }

  class BlockDevice {
    const device: array<byte>
    const buffer: array<byte>
    const blockSize: nat
    var base: nat
    var size: nat
    var filePos: nat
    /** Some driver call of the current operation moved less than one block. */
    ghost var starved: bool

    /** What `block_dev_open` and `block_open` assert. */
    ghost predicate Valid()
      reads this
    {
      && device != buffer
      && 0 < blockSize <= SIZE_LIMIT && Bits.And(blockSize, blockSize - 1) == 0
      && Bits.Multiple(buffer.Length, blockSize) && buffer.Length <= SIZE_LIMIT
      && Bits.Multiple(base, blockSize)
    }

    constructor (device: array<byte>, buffer: array<byte>, blockSize: nat)
      requires device != buffer
      requires 0 < blockSize <= SIZE_LIMIT && Bits.And(blockSize, blockSize - 1) == 0
      requires Bits.Multiple(buffer.Length, blockSize) && buffer.Length <= SIZE_LIMIT
      ensures Valid()
      ensures this.device == device && this.buffer == buffer && this.blockSize == blockSize
    {
      this.device, this.buffer, this.blockSize := device, buffer, blockSize;
      base, size, filePos, starved := 0, 0, 0, false;
    }

    method Open(offset: nat, length: nat)
      requires Valid() && Bits.Multiple(offset, blockSize) && Bits.Multiple(length, blockSize)
      modifies this
      ensures Valid() && base == offset && size == length && filePos == 0
    {
      base, size, filePos := offset, length, 0;
    }

    /** The driver's read: any number of bytes up to the request, and the rest of the buffer is scratch. */
    method DriverRead(lba: nat, request: nat) returns (r: nat)
      requires Valid() && lba < LBA_LIMIT
      requires request <= buffer.Length && Bits.Multiple(request, blockSize)
      modifies buffer, this`starved
      ensures r <= request && starved == (old(starved) || r < blockSize)
      ensures var first := BlockStart(lba, blockSize);
        r > 0 ==> first + r <= device.Length && forall i :: 0 <= i < r ==> buffer[i] == device[first + i]
    {
      var first := BlockStart(lba, blockSize);
      var most := if first < device.Length then Min(request, device.Length - first) else 0;
      var scratch := new byte[buffer.Length];
      r :| 0 <= r <= most;
      starved := starved || r < blockSize;
      Overwrite(buffer, 0, scratch[..]);
      if r > 0 {
        Overwrite(buffer, 0, device[first..first + r]);
      }
    }

    /** The driver's write: the first `r` bytes of the buffer reach the device, and nothing else does. */
    method DriverWrite(lba: nat, request: nat) returns (r: nat)
      requires Valid() && lba < LBA_LIMIT
      requires request <= buffer.Length && Bits.Multiple(request, blockSize)
      modifies device, this`starved
      ensures r <= request && starved == (old(starved) || r < blockSize)
      ensures var first := BlockStart(lba, blockSize);
        && (r > 0 ==> first + r <= device.Length)
        && forall i :: 0 <= i < device.Length ==>
             device[i] == if first <= i < first + r then buffer[i - first] else old(device[i])
    {
      var first := BlockStart(lba, blockSize);
      var most := if first < device.Length then Min(request, device.Length - first) else 0;
      r :| 0 <= r <= most;
      starved := starved || r < blockSize;
      if r > 0 {
        Overwrite(device, first, buffer[..r]);
      }
    }

    /** The block that holds the current position. */
    method BlockNumber() returns (lba: nat)
      requires Valid() && base + filePos < LBA_LIMIT * blockSize
      ensures lba < LBA_LIMIT
      ensures BlockStart(lba, blockSize) + Bits.And(filePos, blockSize - 1) == base + filePos
    {
      LbaLocates(filePos, base, blockSize);
      lba := LbaOf(filePos, base, blockSize);
    }

    /** Start of both loop bodies: bytes to skip, block number, bytes to request. */
    method Locate(left: nat) returns (skip: nat, lba: nat, request: nat)
      requires Valid() && left > 0 && base + filePos < LBA_LIMIT * blockSize
      ensures skip == Bits.And(filePos, blockSize - 1) < blockSize
      ensures lba < LBA_LIMIT && BlockStart(lba, blockSize) + skip == base + filePos
      ensures Bits.Multiple(request, blockSize) && request <= buffer.Length
      ensures buffer.Length > 0 ==> request > skip
    {
      skip := Bits.And(filePos, blockSize - 1);
      lba := BlockNumber();
      RequestFits(skip, left, blockSize, buffer.Length);
      request := RequestSize(skip, left, blockSize, buffer.Length);
    }

    /**
     Reads `length` bytes at the current position. `filePos` tells how many
     bytes were delivered; they are the device's bytes, success means all of
     them, and the rest of the user buffer is untouched.
     */
    method Read(user: array<byte>, length: nat) returns (status: Status)
      requires Valid() && 0 < length <= size && length <= user.Length
      requires user != device && user != buffer
      requires base + filePos + length <= LBA_LIMIT * blockSize
      modifies this`filePos, this`starved, buffer, user
      ensures Valid()
      ensures status.EIo? ==> starved
      ensures var n := filePos - old(filePos);
        && 0 <= n <= length
        && (status.Ok? <==> n == length)
        && (n > 0 ==> base + filePos <= device.Length)
        && (forall i :: 0 <= i < n ==> user[i] == device[base + old(filePos) + i])
        && (forall i :: n <= i < user.Length ==> user[i] == old(user[i]))
    {
      var count: nat, left: nat := 0, length;
      starved := false;
      ghost var start := base + filePos;
      while left > 0
        invariant Valid() && count + left == length && filePos == old(filePos) + count
        invariant count > 0 ==> start + count <= device.Length
        invariant forall i :: 0 <= i < count ==> user[i] == device[start + i]
        invariant forall i :: count <= i < user.Length ==> user[i] == old(user[i])
        decreases left
      {
        var nbytes := ReadBlocks(user, count, left);
        if nbytes == 0 {
          return EIo;
        }
        filePos := filePos + nbytes;
        count := count + nbytes;
        left := left - nbytes;
      }
      status := Ok;
    }

    /** One iteration of the read loop; 0 when the driver did not get past the skipped bytes. */
    method ReadBlocks(user: array<byte>, count: nat, left: nat) returns (nbytes: nat)
      requires Valid() && left > 0 && count + left <= user.Length
      requires user != device && user != buffer
      requires base + filePos < LBA_LIMIT * blockSize
      modifies buffer, user, this`starved
      ensures nbytes <= left && (nbytes == 0 ==> starved)
      ensures nbytes > 0 ==> base + filePos + nbytes <= device.Length
      ensures forall i :: 0 <= i < user.Length ==>
        user[i] == if count <= i < count + nbytes then device[base + filePos + i - count] else old(user[i])
    {
      var skip, lba, request := Locate(left);
      request := DriverRead(lba, request);
      if request <= skip {
        return 0;
      }
      nbytes := request - skip;
      var padding := if nbytes > left then nbytes - left else 0;
      nbytes := nbytes - padding;
      Overwrite(user, count, buffer[skip..skip + nbytes]);
    }

    /**
     Writes `length` bytes at the current position. Whatever happens, the device
     is the old device with the first `filePos - old(filePos)` user bytes in
     place; success means all of them.
     */
    method Write(user: array<byte>, length: nat) returns (status: Status)
      requires Valid() && 0 < length <= size && length <= user.Length
      requires user != device && user != buffer
      requires base + filePos + length <= LBA_LIMIT * blockSize
      modifies this`filePos, this`starved, buffer, device
      ensures Valid()
      ensures status.EIo? ==> starved
      ensures var start, n := base + old(filePos), filePos - old(filePos);
        && 0 <= n <= length
        && (status.Ok? <==> n == length)
        && (n > 0 ==> start + n <= device.Length)
        && forall i :: 0 <= i < device.Length ==>
             device[i] == if start <= i < start + n then user[i - start] else old(device[i])
    {
      var count: nat, left: nat := 0, length;
      starved := false;
      ghost var start := base + filePos;
      while left > 0
        invariant Valid() && count + left == length && filePos == old(filePos) + count
        invariant count > 0 ==> start + count <= device.Length
        invariant forall i :: 0 <= i < device.Length ==>
          device[i] == if start <= i < start + count then user[i - start] else old(device[i])
        decreases left
      {
        var nbytes := WriteBlocks(user, count, left);
        if nbytes == 0 {
          return EIo;
        }
        filePos := filePos + nbytes;
        count := count + nbytes;
        left := left - nbytes;
      }
      status := Ok;
    }

    /**
     One iteration of the write loop: stage the blocks in the bounce buffer and
     write them back. 0 when a driver call did not get past the skipped bytes.
     */
    method WriteBlocks(user: array<byte>, count: nat, left: nat) returns (nbytes: nat)
      requires Valid() && left > 0 && count + left <= user.Length
      requires user != device && user != buffer
      requires base + filePos < LBA_LIMIT * blockSize
      modifies buffer, device, this`starved
      ensures nbytes <= left && (nbytes == 0 ==> starved)
      ensures nbytes > 0 ==> base + filePos + nbytes <= device.Length
      ensures forall i :: 0 <= i < device.Length ==>
        device[i] == if base + filePos <= i < base + filePos + nbytes
                     then user[count + (i - base - filePos)] else old(device[i])
    {
      var ok, skip, lba, request := Stage(user, count, left);
      if !ok {
        return 0;
      }
      request := DriverWrite(lba, request);
      if request <= skip {
        return 0;
      }
      nbytes := request - skip;
      var padding := if nbytes > left then nbytes - left else 0;
      nbytes := nbytes - padding;
    }

    /**
     Read the blocks that must be partly kept, then overlay the user bytes. The
     staged blocks are the device's own, except where user bytes go. It fails
     when the read does not get past the skipped bytes.
     */
    method Stage(user: array<byte>, count: nat, left: nat) returns (ok: bool, skip: nat, lba: nat, request: nat)
      requires Valid() && left > 0 && count + left <= user.Length
      requires user != device && user != buffer
      requires base + filePos < LBA_LIMIT * blockSize
      modifies buffer, this`starved
      ensures !ok ==> starved
      ensures request <= buffer.Length && Bits.Multiple(request, blockSize) && skip < blockSize
      ensures lba < LBA_LIMIT && BlockStart(lba, blockSize) + skip == base + filePos
      ensures ok ==> forall i :: 0 <= i < request && skip <= i < skip + left ==> buffer[i] == user[count + i - skip]
      ensures var first := BlockStart(lba, blockSize);
        ok ==> forall i :: 0 <= i < request && !(skip <= i < skip + left) ==>
          first + i < device.Length && buffer[i] == device[first + i]
    {
      skip, lba, request := Locate(left);
      ghost var first := BlockStart(lba, blockSize);
      var nbytes: nat := Sub64(request, skip);
      var padding := if nbytes > left then nbytes - left else 0;
      nbytes := nbytes - padding;
      if skip > 0 || padding > 0 {
        var got := DriverRead(lba, request);
        RoundDownRequest(got, blockSize);
        request := Bits.And(got, Bits.TWO_64 - blockSize);
        if request <= skip {
          ok := false;
          return;
        }
        nbytes := request - skip;
        padding := if nbytes > left then nbytes - left else 0;
        nbytes := nbytes - padding;
      }
      Overwrite(buffer, skip, user[count..count + nbytes]);
      ok := true;
    }
  }
}
