/** What mapping a page does to every address space and to the ownership of every frame. */
module Mapping {
  import opened Wrappers
  import opened PhysMem
  import opened Ownership
  import opened Paging

  /** From (s, b) to (s', b') no frame in use changed hands or lost its contents, and in the address
      spaces of b exactly the tables and pages listed in `more` are new. */
  ghost predicate Grows(s: Phys, b: Book, s': Phys, b': Book, more: iset<Owner>) {
    && |s'.mem| == |s.mem|
    && (forall f, o :: Owns(b, f, o) && o != Free ==> Owns(b', f, o))
    && (forall f :: Owns(b', f, Held) ==> Owns(b, f, Held))
    && (forall f :: f in b.owner && (b.owner[f].Data? || b.owner[f] == Global) ==> SameWords(s, s', f))
    && (forall pd, i :: Owns(b, pd, Dir) && !Private(i) ==> Load(s', pd, i) == Load(s, pd, i))
    && (forall pd, i :: Owns(b, pd, Dir) && Private(i) ==>
          (HasTable(s', pd, i) <==> HasTable(s, pd, i) || Table(pd, i) in more))
    && (forall pd, i :: Owns(b, pd, Dir) && Private(i) && HasTable(s, pd, i) ==>
          TableAt(s', pd, i) == TableAt(s, pd, i))
    && (forall pd, i, j :: Owns(b, pd, Dir) && Private(i) ==>
          (HasPage(s', pd, i, j) <==> HasPage(s, pd, i, j) || Data(pd, i, j) in more))
    && (forall pd, i, j :: Owns(b, pd, Dir) && Private(i) && HasPage(s, pd, i, j) ==>
          PageAt(s', pd, i, j) == PageAt(s, pd, i, j))
  }

  lemma GrowsNothing(s: Phys, b: Book)
    ensures Grows(s, b, s, b, iset{})
  {
  }

  lemma GrowsThen(s: Phys, b: Book, s1: Phys, b1: Book, s2: Phys, b2: Book, x: iset<Owner>, y: iset<Owner>)
    requires Grows(s, b, s1, b1, x) && Grows(s1, b1, s2, b2, y)
    ensures Grows(s, b, s2, b2, x + y)
  {
    forall f | f in b.owner && (b.owner[f].Data? || b.owner[f] == Global) ensures SameWords(s, s2, f) {
      assert Owns(b, f, b.owner[f]);
    }
  }

  /** Taking a frame leaves every other frame's words and owner alone. */
  lemma TakeFrame(s: Phys, b: Book) returns (s1: Phys, b1: Book, f: int)
    requires Inv(s, b) && AllocFrame(s).Some?
    ensures AllocFrame(s).value == (s1, f) && Left(s1, b1) == Left(s, b) - 1
    ensures Inv(s1, b1) && Owns(b1, f, Held) && s1.mem[f] == Zeros() && |s1.mem| == |s.mem|
    ensures f !in b.owner || b.owner[f] == Free
    ensures forall g, k :: g != f ==> Load(s1, g, k) == Load(s, g, k)
    ensures forall g, o :: g != f ==> (Owns(b, g, o) <==> Owns(b1, g, o))
    ensures forall k :: Load(s1, f, k) == 0
  {
    AllocKeeps(s, b);
    s1, f := AllocFrame(s).value.0, AllocFrame(s).value.1;
    b1 := BookAlloc(s, b, f);
  }

  lemma AddTable(s: Phys, b: Book, pd: int, i: int) returns (b': Book)
    requires Inv(s, b)
    requires Owns(b, pd, Dir) && Private(i) && !HasTable(s, pd, i)
    requires AllocFrame(s).Some?
    ensures var (s1, t) := AllocFrame(s).value;
            var s' := Store(s1, pd, i, Entry(t, TABLE_FLAGS));
            && Inv(s', b') && SameDirs(b, b') && TableAt(s', pd, i) == t && Grows(s, b, s', b', iset{Table(pd, i)})
            && Left(s', b') == Left(s, b) - 1
  {
    var s1, b1, t := TakeFrame(s, b);
    EntryFrame(t, TABLE_FLAGS);
    EntryOpen(t, TABLE_FLAGS);
    LinkTableKeeps(s1, b1, pd, i, t, Entry(t, TABLE_FLAGS));
    var s' := Store(s1, pd, i, Entry(t, TABLE_FLAGS));
    b' := Relabel(b1, t, Table(pd, i));
    EntryFrame(t, TABLE_FLAGS);
    assert forall g, k :: g != t && (g != pd || k != i) ==> Load(s', g, k) == Load(s, g, k);
    assert forall k :: Load(s', t, k) == 0;
    AddTableGrows(s, b, s', b', pd, i, t);
  }

  lemma AddTableGrows(s: Phys, b: Book, s': Phys, b': Book, pd: int, i: int, t: int)
    requires Inv(s, b)
    requires Owns(b, pd, Dir) && Private(i) && !HasTable(s, pd, i)
    requires |s'.mem| == |s.mem| && (t !in b.owner || b.owner[t] == Free)
    requires forall g, o :: g != t && Owns(b, g, o) ==> Owns(b', g, o)
    requires forall g :: Owns(b', g, Held) ==> Owns(b, g, Held)
    requires forall g, k :: g != t && (g != pd || k != i) ==> Load(s', g, k) == Load(s, g, k)
    requires HasTable(s', pd, i) && TableAt(s', pd, i) == t && forall k :: Load(s', t, k) == 0
    ensures Grows(s, b, s', b', iset{Table(pd, i)})
  {
    forall p, k, l | Owns(b, p, Dir) && Private(k)
      ensures HasPage(s', p, k, l) == HasPage(s, p, k, l)
      ensures HasPage(s, p, k, l) ==> PageAt(s', p, k, l) == PageAt(s, p, k, l) {
      if HasTable(s, p, k) {
        assert Owns(b, TableAt(s, p, k), Table(p, k));
      }
    }
  }

  lemma AddPage(s: Phys, b: Book, pd: int, i: int, j: int) returns (b': Book)
    requires Inv(s, b)
    requires Owns(b, pd, Dir) && Private(i) && HasTable(s, pd, i) && 0 <= j < WORDS && !HasPage(s, pd, i, j)
    requires AllocFrame(s).Some?
    ensures var (s1, d) := AllocFrame(s).value;
            var s' := Store(s1, TableAt(s, pd, i), j, Entry(d, PAGE_FLAGS));
            && Inv(s', b') && SameDirs(b, b') && Grows(s, b, s', b', iset{Data(pd, i, j)})
            && HasTable(s', pd, i) && TableAt(s', pd, i) == TableAt(s, pd, i)
            && HasPage(s', pd, i, j) && PageAt(s', pd, i, j) == d && Owns(b', d, Data(pd, i, j))
            && Left(s', b') == Left(s, b) - 1 && forall k :: Load(s', d, k) == 0
  {
    var t := TableAt(s, pd, i);
    assert Owns(b, t, Table(pd, i));
    var s1, b1, d := TakeFrame(s, b);
    assert TableAt(s1, pd, i) == t;
    EntryFrame(d, PAGE_FLAGS);
    EntryOpen(d, PAGE_FLAGS);
    LinkPageKeeps(s1, b1, pd, i, j, d, Entry(d, PAGE_FLAGS));
    var s' := Store(s1, t, j, Entry(d, PAGE_FLAGS));
    b' := Relabel(b1, d, Data(pd, i, j));
    EntryFrame(d, PAGE_FLAGS);
    assert forall g, k :: g != d && (g != t || k != j) ==> Load(s', g, k) == Load(s, g, k);
    assert forall k :: Load(s', d, k) == 0;
    AddPageGrows(s, b, s', b', pd, i, j, d);
  }

  lemma AddPageGrows(s: Phys, b: Book, s': Phys, b': Book, pd: int, i: int, j: int, d: int)
    requires Inv(s, b)
    requires Owns(b, pd, Dir) && Private(i) && HasTable(s, pd, i) && 0 <= j < WORDS && !HasPage(s, pd, i, j)
    requires |s'.mem| == |s.mem| && (d !in b.owner || b.owner[d] == Free)
    requires forall g, o :: g != d && Owns(b, g, o) ==> Owns(b', g, o)
    requires forall g :: Owns(b', g, Held) ==> Owns(b, g, Held)
    requires forall g, k :: g != d && (g != TableAt(s, pd, i) || k != j) ==> Load(s', g, k) == Load(s, g, k)
    requires Present(Load(s', TableAt(s, pd, i), j))
    ensures Grows(s, b, s', b', iset{Data(pd, i, j)})
    ensures HasTable(s', pd, i) && TableAt(s', pd, i) == TableAt(s, pd, i)
  {
    assert Owns(b, TableAt(s, pd, i), Table(pd, i));
    forall p, k, l | Owns(b, p, Dir) && Private(k)
      ensures HasPage(s', p, k, l) <==> HasPage(s, p, k, l) || Data(p, k, l) in iset{Data(pd, i, j)}
      ensures HasPage(s, p, k, l) ==> PageAt(s', p, k, l) == PageAt(s, p, k, l) {
      if HasTable(s, p, k) {
        assert Owns(b, TableAt(s, p, k), Table(p, k));
      }
    }
  }

  // ---- Page fault ----

  /** A fault on a private address maps it to a zeroed page unless it was mapped; no other address of
      any address space is affected. */
  lemma MapPageGrows(s: Phys, b: Book, pd: int, va: int) returns (b': Book)
    requires Inv(s, b) && Owns(b, pd, Dir) && PRIVATE_START <= va < PRIVATE_END
    requires MapPage(s, pd, va).Some?
    ensures var s' := MapPage(s, pd, va).value;
            && Inv(s', b') && SameDirs(b, b')
            && Grows(s, b, s', b', iset{Table(pd, Pdi(va)), Data(pd, Pdi(va), Pti(va))})
            && (Translate(s, pd, va).None? ==> forall k :: Load(s', PageAt(s', pd, Pdi(va), Pti(va)), k) == 0)
  {
    var i, j := Pdi(va), Pti(va);
    var s1 := EnsureTable(s, pd, i).value;
    var b1 := b;
    if !HasTable(s, pd, i) {
      b1 := AddTable(s, b, pd, i);
    }
    assert Grows(s, b, s1, b1, iset{Table(pd, i)});
    var s' := EnsurePage(s1, TableAt(s1, pd, i), j).value;
    b' := b1;
    if !HasPage(s1, pd, i, j) {
      b' := AddPage(s1, b1, pd, i, j);
    }
    assert Grows(s1, b1, s', b', iset{Data(pd, i, j)});
    GrowsThen(s, b, s1, b1, s', b', iset{Table(pd, i)}, iset{Data(pd, i, j)});
    assert iset{Table(pd, i), Data(pd, i, j)} == iset{Table(pd, i)} + iset{Data(pd, i, j)};
  }
}
