/**
 memmove on one memory: the source and the destination may overlap.
 */
module Memmove {
  import opened MachineTypes

  /** The memory with the n old bytes at src at dst, and every other byte as it was. */
  ghost function Moved(mem: seq<u8>, dst: nat, src: nat, n: nat): (r: seq<u8>)
    requires dst + n <= |mem| && src + n <= |mem|
    ensures |r| == |mem|
    ensures forall a | 0 <= a < |mem| :: r[a] == if dst <= a < dst + n then mem[src + (a - dst)] else mem[a]
  {
    mem[..dst] + mem[src..src + n] + mem[dst + n..]
  }

  /** Moving bytes and moving them back leaves them where they were, overlap or not. */
  lemma MoveBack(mem: seq<u8>, dst: nat, src: nat, n: nat)
    requires dst + n <= |mem| && src + n <= |mem|
    ensures var there := Moved(mem, dst, src, n);
            there[dst..dst + n] == mem[src..src + n] &&
            Moved(there, src, dst, n)[src..src + n] == mem[src..src + n]
  {}

  method Move(mem: array<u8>, dst: nat, src: nat, n0: nat) returns (r: nat)
    requires dst + n0 <= mem.Length && src + n0 <= mem.Length
    modifies mem
    ensures mem[..] == Moved(old(mem[..]), dst, src, n0) && r == dst
  {
    ghost var before := mem[..];
    var p: nat, q: nat, n: nat := src, dst, n0;
    if q < p {
      while n != 0
        invariant n <= n0 && p == src + (n0 - n) && q == dst + (n0 - n)
        invariant forall a | dst <= a < q :: mem[a] == before[src + (a - dst)]
        invariant forall a | 0 <= a < mem.Length && !(dst <= a < q) :: mem[a] == before[a]
        decreases n
      {
        assert mem[p] == before[p] && p == src + (q - dst);
        mem[q] := mem[p];
        q := q + 1;
        p := p + 1;
        n := n - 1;
      }
    } else {
      p := p + n;
      q := q + n;
      while n != 0
        invariant n <= n0 && p == src + n && q == dst + n
        invariant forall a | q <= a < dst + n0 :: mem[a] == before[src + (a - dst)]
        invariant forall a | 0 <= a < mem.Length && !(q <= a < dst + n0) :: mem[a] == before[a]
        decreases n
      {
        q := q - 1;
        p := p - 1;
        assert mem[p] == before[p] && p == src + (q - dst);
        mem[q] := mem[p];
        n := n - 1;
      }
    }
    ghost var after := Moved(before, dst, src, n0);
    assert forall a | 0 <= a < mem.Length :: mem[a] == after[a];
    assert mem[..] == after;
    return dst;
  }
}
