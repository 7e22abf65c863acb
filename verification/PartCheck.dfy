/**
 The sanity check of a partition against its flash chip (part_validate in cmd_jffs2.c).  Sizes and
 offsets are unsigned 32-bit numbers and their sums wrap.
 */
module PartCheck {
  import opened Common
  import opened DivMod
  import opened FlashSpec

  /** The special size that stands for all the remaining space. */
  const SIZE_REMAINING: nat := 0xFFFF_FFFF

  /** The flash behind a device: the banks' sectors for NOR, the erase block size for NAND. */
  datatype Chip = Nor(bank: Bank) | Nand(eraseSize: nat)

  /** A device known by its number and by the name the kernel uses for it. */
  datatype Id = Id(num: nat, size: nat, name: string, chip: Chip) {
    ghost predicate Valid() {
      && size < SIZE_REMAINING
      && (if chip.Nor? then chip.bank.Valid() && size == chip.bank.size else chip.eraseSize > 0)
    }
  }

  predicate NorAligned(bank: Bank, offset: nat, size: nat)
    requires bank.Valid()
  {
    var end := (offset + size) % U32;
    && (exists i :: 0 <= i < |bank.start| && bank.start[i] - bank.start[0] == offset)
    && (bank.size == end || exists i :: 0 <= i < |bank.start| && bank.start[i] - bank.start[0] == end)
  }

  predicate Aligned(chip: Chip, offset: nat, size: nat)
    requires if chip.Nor? then chip.bank.Valid() else chip.eraseSize > 0
  {
    match chip
    case Nor(bank) => NorAligned(bank, offset, size)
    case Nand(eraseSize) => offset % eraseSize == 0 && size % eraseSize == 0
  }

  /** The size of the partition once the check has accepted it. */
  function PartValidate(id: Id, offset: nat, size: nat): (r: Option<nat>)
    requires id.Valid() && offset < U32 && size < U32
  {
    var s := if size == SIZE_REMAINING then (id.size - offset) % U32 else size;
    if offset > id.size then None
    else if (offset + s) % U32 <= offset then None
    else if (offset + s) % U32 > id.size then None
    else if Aligned(id.chip, offset, s) then Some(s) else None
  }

  /** An accepted partition lies inside its device, is not empty, and is accepted again with the
      size it was given. */
  lemma {:induction false} AcceptedFits(id: Id, offset: nat, size: nat)
    requires id.Valid() && offset < U32 && size < U32 && PartValidate(id, offset, size).Some?
    ensures var s := PartValidate(id, offset, size).value;
      && 0 < s && offset + s <= id.size && Aligned(id.chip, offset, s)
      && PartValidate(id, offset, s) == Some(s)
      && (size != SIZE_REMAINING ==> s == size)
  {
  }

  /** A partition is accepted exactly when it is not empty, lies inside the device in spite of the
      wrapping sums, and is aligned; one that takes all that is left gets the size of that. */
  lemma AcceptedExactly(id: Id, offset: nat, size: nat)
    requires id.Valid() && offset < U32 && size < U32
    ensures var s := if size == 0xFFFF_FFFF then id.size - offset else size;
      PartValidate(id, offset, size) == if 0 < s && offset + s <= id.size && Aligned(id.chip, offset, s) then Some(s) else None
  {
    hide Aligned;
  }

  /** On NAND flash partitions are made of whole erase blocks. */
  lemma NandAlignment(eraseSize: nat, offset: nat, size: nat)
    requires eraseSize > 0
    ensures Aligned(Nand(eraseSize), offset, size) <==> exists i: nat, k: nat :: offset == i * eraseSize && size == k * eraseSize
  {
    Divided(offset, eraseSize);
    Divided(size, eraseSize);
    if offset % eraseSize == 0 && size % eraseSize == 0 {
      assert offset == (offset / eraseSize) * eraseSize && size == (size / eraseSize) * eraseSize;
    }
    if i: nat, k: nat :| offset == i * eraseSize && size == k * eraseSize {
      DivModOf(i, eraseSize, 0);
      DivModOf(k, eraseSize, 0);
    }
  }
}
