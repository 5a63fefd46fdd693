/** Byte memory and the one thing every component does to it: overwrite a range. */
module Memory {
  type u8 = b: nat | b < 256

  function Overwrite(ram: seq<u8>, addr: nat, data: seq<u8>): (r: seq<u8>)
    requires addr + |data| <= |ram|
    ensures |r| == |ram|
  {
    seq(|ram|, a requires 0 <= a < |ram| => if addr <= a < addr + |data| then data[a - addr] else ram[a])
  }

  lemma OverwriteAt(ram: seq<u8>, addr: nat, data: seq<u8>)
    requires addr + |data| <= |ram|
    ensures var r := Overwrite(ram, addr, data);
      forall a :: 0 <= a < |ram| ==> r[a] == if addr <= a < addr + |data| then data[a - addr] else ram[a]
  {
  }

  lemma OverwriteTwice(ram: seq<u8>, addr: nat, x: seq<u8>, y: seq<u8>, z: seq<u8>)
    requires z == x + y && addr + |z| <= |ram|
    ensures Overwrite(Overwrite(ram, addr, x), addr + |x|, y) == Overwrite(ram, addr, z)
  {
    var m := Overwrite(ram, addr, x);
    var l, r := Overwrite(m, addr + |x|, y), Overwrite(ram, addr, z);
    OverwriteAt(ram, addr, x);
    OverwriteAt(m, addr + |x|, y);
    OverwriteAt(ram, addr, z);
    assert forall a :: 0 <= a < |ram| ==> l[a] == r[a];
  }

  lemma OverwriteNothing(ram: seq<u8>, addr: nat)
    requires addr <= |ram|
    ensures Overwrite(ram, addr, []) == ram
  {
    OverwriteAt(ram, addr, []);
    var r := Overwrite(ram, addr, []);
    assert forall a :: 0 <= a < |ram| ==> r[a] == ram[a];
  }

  method Memcpy(ram: array<u8>, addr: nat, src: seq<u8>, len: nat)
    requires len <= |src| && addr + len <= ram.Length
    modifies ram
    ensures ram[..] == Overwrite(old(ram[..]), addr, src[..len])
  {
    forall i | 0 <= i < len {
      ram[addr + i] := src[i];
    }
    ghost var want := Overwrite(old(ram[..]), addr, src[..len]);
    OverwriteAt(old(ram[..]), addr, src[..len]);
    forall a | 0 <= a < ram.Length ensures ram[a] == want[a] {
      if addr <= a < addr + len { assert ram[addr + (a - addr)] == src[a - addr]; }
    }
  }
}
