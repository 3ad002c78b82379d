/** The C heap, as far as ownership matters. */
module Memory {
  import opened Media

  /** Which blocks were allocated, which the program freed, and which it handed over to a library that
      frees them.  A block is live until one of the last two happens. */
  class Heap {
    ghost var allocations: set<object>
    ghost var freed: seq<object>
    ghost var given: seq<object>

    constructor ()
      ensures allocations == {} && freed == [] && given == [] && Once()
    {
      allocations, freed, given := {}, [], [];
    }

    ghost predicate Live(block: object)
      reads this
    {
      block in allocations && block !in freed && block !in given
    }

    /** No block was freed twice, or by the program and by the library. */
    ghost predicate Once()
      reads this
    {
      && (forall i, j :: 0 <= i < j < |freed| ==> freed[i] != freed[j])
      && (forall i, j :: 0 <= i < j < |given| ==> given[i] != given[j])
      && (forall i, j :: 0 <= i < |freed| && 0 <= j < |given| ==> freed[i] != given[j])
    }

    /** malloc followed by memcpy of the first `size` bytes of `source` */
    method Copy(source: array<byte>, size: nat) returns (block: array<byte>)
      requires size <= source.Length
      modifies this`allocations
      ensures fresh(block) && block[..] == source[..size]
      ensures allocations == old(allocations) + {block}
    {
      block := new byte[size];
      forall i | 0 <= i < size {
        block[i] := source[i];
      }
      allocations := allocations + {block};
    }

    /** malloc */
    method Malloc(size: nat) returns (block: array<byte>)
      modifies this`allocations
      ensures fresh(block) && block.Length == size
      ensures allocations == old(allocations) + {block}
    {
      block := new byte[size];
      allocations := allocations + {block};
    }

    method Free(block: object)
      requires Live(block)
      modifies this`freed
      ensures freed == old(freed) + [block]
      ensures old(Once()) ==> Once()
    {
      freed := freed + [block];
    }

    method Give(block: object)
      requires Live(block)
      modifies this`given
      ensures given == old(given) + [block]
      ensures old(Once()) ==> Once()
    {
      given := given + [block];
    }
  }
}
