/**
 * The size arithmetic of the block-pipe shim in `FPDev::writePipe` and
 * `FPDev::readPipe` (fpdev.cpp:244-281). A block pipe moves whole blocks,
 * so a transfer whose size is not a multiple of the block size goes through
 * a temporary buffer padded up to the next multiple.
 *
 * The source rounds with `ceil(size / (double)blockSize)`; the model uses
 * integer ceiling division, which agrees with it for sizes below 2^53.
 */
module BlockPipe {
  import opened Common

  /** `ceil(a / (double)b)`. */
  function CeilDiv(a: nat, b: nat): (q: nat)
    requires b > 0
    ensures q * b >= a
    ensures q == 0 || (q - 1) * b < a
  {
    if a % b == 0 then a / b else a / b + 1
  }

  /** A transfer of `size` bytes fills whole blocks. */
  predicate Aligned(size: nat, blockSize: nat)
    requires blockSize > 0
  {
    size % blockSize == 0
  }

  /**
   * The size of the padded temporary for an unaligned transfer, as
   * `readPipe` computes it in `size_t` and as `writePipe` evidently
   * intends: `max(blockSize, ceil(size / blockSize) * blockSize)`.
   */
  function PaddedSize(size: nat, blockSize: nat): nat
    requires blockSize > 0
  {
    Max(blockSize, CeilDiv(size, blockSize) * blockSize)
  }

  /** The length handed to the SDK: `size` itself when aligned, the padded size otherwise. */
  function TransferSize(size: nat, blockSize: nat): nat
    requires blockSize > 0
  {
    if Aligned(size, blockSize) then size else PaddedSize(size, blockSize)
  }

  /**
   * The padded size is the least multiple of the block size that is at
   * least `size` and at least one block.
   */
  lemma PaddedSizeLeast(size: nat, blockSize: nat)
    requires blockSize > 0
    ensures PaddedSize(size, blockSize) >= size
    ensures PaddedSize(size, blockSize) >= blockSize
    ensures PaddedSize(size, blockSize) % blockSize == 0
    ensures forall m: nat {:trigger m % blockSize} ::
              m % blockSize == 0 && m >= size && m >= blockSize ==> PaddedSize(size, blockSize) <= m
  {
    var q := CeilDiv(size, blockSize);
    if q == 0 {
      assert PaddedSize(size, blockSize) == blockSize;
    } else {
      assert PaddedSize(size, blockSize) == q * blockSize;
      MulMod(q, blockSize);
      forall m: nat | m % blockSize == 0 && m >= size && m >= blockSize
        ensures q * blockSize <= m
      {
        var k := m / blockSize;
        assert m == k * blockSize;
        if k < q {
          MulMono(k, q - 1, blockSize);
          assert false;
        }
        MulMono(q, k, blockSize);
      }
    }
  }

  /** For an unaligned transfer the `max` with one block never matters: there are bytes, so a block is needed anyway. */
  lemma PaddedMaxRedundant(size: nat, blockSize: nat)
    requires blockSize > 0 && !Aligned(size, blockSize)
    ensures PaddedSize(size, blockSize) == CeilDiv(size, blockSize) * blockSize
    ensures size < PaddedSize(size, blockSize) < size + blockSize
  {
    var q := CeilDiv(size, blockSize);
    assert q >= 1;
    MulMono(1, q, blockSize);
    var k := size / blockSize;
    assert q == k + 1;
    assert size == k * blockSize + size % blockSize;
    assert q * blockSize == k * blockSize + blockSize;
  }

  /** An aligned transfer moves exactly `size` bytes; an unaligned one a padded block count. */
  lemma TransferSizeSpec(size: nat, blockSize: nat)
    requires blockSize > 0
    ensures TransferSize(size, blockSize) % blockSize == 0
    ensures TransferSize(size, blockSize) >= size
    ensures Aligned(size, blockSize) ==> TransferSize(size, blockSize) == size
    ensures !Aligned(size, blockSize) ==> TransferSize(size, blockSize) - size < blockSize
  {
    PaddedSizeLeast(size, blockSize);
    if !Aligned(size, blockSize) {
      PaddedMaxRedundant(size, blockSize);
    }
  }

  /**
   * `writePipe` as written: the padded size is narrowed to `u32`, and so is
   * the block size it is compared with. (A floating-point value outside the
   * range of `u32` has no defined conversion in C++; the model takes the low
   * 32 bits, as the usual targets do for values below 2^64.)
   */
  function WriteSizeAsWritten(size: nat, blockSize: nat): nat
    requires blockSize > 0
  {
    Max(ToU32(blockSize) as int, ToU32(CeilDiv(size, blockSize) * blockSize) as int)
  }

  /**
   * The narrowing makes the temporary buffer smaller than `size` once the
   * padded size reaches 2^32: the `memcpy` of `size` bytes then runs past
   * its end. One byte over 4 GiB is such a size.
   */
  lemma WriteSizeNarrowingOverruns()
    ensures !Aligned(TWO_32 + 1, 1024)
    ensures WriteSizeAsWritten(TWO_32 + 1, 1024) == 1024
    ensures WriteSizeAsWritten(TWO_32 + 1, 1024) < TWO_32 + 1
  {
    var size := TWO_32 + 1;
    assert size % 1024 == 1;
    assert CeilDiv(size, 1024) == 0x40_0001;
    assert CeilDiv(size, 1024) * 1024 == TWO_32 + 1024;
    assert ToU32(TWO_32 + 1024) == 1024;
  }

  /** Without the narrowing, the temporary always holds the `size` bytes copied into it. */
  lemma WriteSizeHoldsData(size: nat, blockSize: nat)
    requires blockSize > 0
    ensures PaddedSize(size, blockSize) >= size
    ensures size < TWO_32 - blockSize && blockSize < TWO_32 ==>
              WriteSizeAsWritten(size, blockSize) == PaddedSize(size, blockSize)
  {
    PaddedSizeLeast(size, blockSize);
    var q := CeilDiv(size, blockSize);
    if q > 0 {
      assert (q - 1) * blockSize < size;
      assert q * blockSize == (q - 1) * blockSize + blockSize;
    }
  }

  lemma MulMod(q: nat, b: nat)
    requires b > 0
    ensures (q * b) % b == 0
  {
    DivModUnique(q * b, b, q, 0);
  }

  lemma MulMono(a: nat, c: nat, b: nat)
    requires a <= c
    ensures a * b <= c * b
  {
  }
}
