/** The kernel's table of exported symbols. */
module SymTable {
  import opened Bytes
  import opened MemOps

  const MAX_SYMBOLS: nat := 256

  datatype Symbol = Symbol(name: seq<byte>, address: nat)

  ghost predicate Sound(entries: seq<Symbol>) {
    forall i :: 0 <= i < |entries| ==> 0 !in entries[i].name && entries[i].address < WORD
  }

  /** The address of the first entry of that name, 0 when there is none. */
  function Resolve(entries: seq<Symbol>, name: seq<byte>): nat {
    if entries == [] then 0
    else if entries[0].name == name then entries[0].address
    else Resolve(entries[1..], name)
  }

  lemma {:induction false} ResolveIsFirst(entries: seq<Symbol>, name: seq<byte>, i: nat)
    requires i <= |entries| && forall j :: 0 <= j < i ==> entries[j].name != name
    requires i < |entries| ==> entries[i].name == name
    ensures Resolve(entries, name) == if i < |entries| then entries[i].address else 0
  {
    if i == 0 {
    } else {
      ResolveIsFirst(entries[1..], name, i - 1);
    }
  }

  /** Registering a name again changes nothing for it; registering a new one changes only that name. */
  lemma {:induction false} ResolveAfterRegister(entries: seq<Symbol>, s: Symbol, name: seq<byte>)
    ensures Resolve(entries + [s], name) ==
            if s.name == name && forall i :: 0 <= i < |entries| ==> entries[i].name != name then s.address
            else Resolve(entries, name)
  {
    if entries == [] {
    } else {
      assert (entries + [s])[1..] == entries[1..] + [s];
      ResolveAfterRegister(entries[1..], s, name);
      assert entries[0].name != name ==>
        ((forall i :: 0 <= i < |entries| ==> entries[i].name != name) <==>
         (forall i :: 0 <= i < |entries[1..]| ==> entries[1..][i].name != name)) by {
        assert forall i :: 1 <= i < |entries| ==> entries[i] == entries[1..][i - 1];
      }
    }
  }

  class SymbolTable {
    const symtable: array<Symbol>
    var symbolIdx: nat

    ghost predicate Valid()
      reads this, symtable
    {
      symtable.Length == MAX_SYMBOLS && symbolIdx <= MAX_SYMBOLS && Sound(Entries())
    }

    ghost function Entries(): seq<Symbol>
      reads this, symtable
      requires symbolIdx <= symtable.Length
    {
      symtable[..symbolIdx]
    }

    constructor ()
      ensures Valid() && fresh(symtable) && Entries() == []
    {
      symtable := new Symbol[MAX_SYMBOLS](_ => Symbol([], 0));
      symbolIdx := 0;
    }

    method RegisterSymbol(name: seq<byte>, address: nat)
      requires Valid() && symbolIdx < MAX_SYMBOLS && 0 !in name && address < WORD
      modifies this, symtable
      ensures Valid() && Entries() == old(Entries()) + [Symbol(name, address)]
    {
      symtable[symbolIdx] := Symbol(name, address);
      symbolIdx := symbolIdx + 1;
    }

    /** `resolve_symbol` for the C string at `a`. */
    method ResolveSymbol(m: Memory, a: nat, ghost name: seq<byte>) returns (address: nat)
      requires Valid() && CString(m, a, name)
      ensures address == Resolve(Entries(), name) && address < WORD
    {
      ghost var entries := Entries();
      for i := 0 to symbolIdx
        invariant forall j :: 0 <= j < i ==> entries[j].name != name
      {
        var s := symtable[i];
        assert s == entries[i];
        var c := Strcmp(s.name + [0], 0, m, a, s.name, name);
        if c == 0 {
          ResolveIsFirst(entries, name, i);
          return s.address;
        }
      }
      ResolveIsFirst(entries, name, symbolIdx);
      address := 0;
    }
  }
}
