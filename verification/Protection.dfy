/** The protection argument of `mmap` and the page-table flags made of it. */
module Protection {
  import opened Memory
  import opened Sv39

  /** Protection bits: read 1, write 2, execute 4; anything readable at all is mapped readable. */
  function ProtFlags(prot: nat): Flags {
    Flags(prot % 8 != 0, prot % 4 >= 2, prot % 8 >= 4, true, false, true, true)
  }

  predicate Rwx(f: Flags) { f.r || f.w || f.x }

  function One(b: bool): nat { if b then 1 else 0 }

  /** The argument `prot` for some wanted accesses: PROT_READ is 1, PROT_WRITE is 2, PROT_EXEC is 4. */
  function Prot(read: bool, write: bool, exec: bool): nat { One(read) + 2 * One(write) + 4 * One(exec) }

  /** Writable and executable as asked for, readable if anything was asked for, always for the user. */
  predicate Protects(f: Flags, read: bool, write: bool, exec: bool) {
    f.r == (read || write || exec) && f.w == write && f.x == exec && f.u && f.a && f.d && !f.g
  }

  lemma ProtFlagsAre(read: bool, write: bool, exec: bool)
    ensures Protects(ProtFlags(Prot(read, write, exec)), read, write, exec)
  {
    var p, low := Prot(read, write, exec), One(read) + 2 * One(write);
    DivModUnique(p, 4, One(exec), low);
    DivModUnique(p, 8, 0, p);
  }

  /** Every valid `prot` asks for some accesses; only 0 asks for none. */
  lemma EveryProt(prot: nat) returns (read: bool, write: bool, exec: bool)
    requires prot < 8
    ensures prot == Prot(read, write, exec)
    ensures Rwx(ProtFlags(prot)) <==> prot != 0
  {
    hide ProtFlags;
    exec := prot >= 4;
    var rest := if exec then prot - 4 else prot;
    write := rest >= 2;
    read := rest == 1 || rest == 3;
    ProtFlagsAre(read, write, exec);
  }

  lemma AllProt(prot: nat)
    ensures forall read, write, exec :: prot == Prot(read, write, exec) ==>
              Protects(ProtFlags(prot), read, write, exec)
  {
    hide Prot, Protects, ProtFlags;
    forall read, write, exec | prot == Prot(read, write, exec) ensures Protects(ProtFlags(prot), read, write, exec) {
      ProtFlagsAre(read, write, exec);
    }
  }
}
