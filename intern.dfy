/**
 * The string interner of cov/src/intern.rs: strings are stored once, in an
 * arena that only grows, and handed out as `Symbol` indices into it.
 */
module Intern {
  import opened Options

  type Symbol = nat

  /** The symbol of `"<unknown>"`, the first string every interner holds. */
  const UNKNOWN_SYMBOL: Symbol := 0
  const UNKNOWN: string := "<unknown>"

  /** Arena contents with no string stored twice. */
  ghost predicate Distinct(arena: seq<string>)
  {
    forall i, j :: 0 <= i < j < |arena| ==> arena[i] != arena[j]
  }

  /** Position of the first occurrence of `s` in `arena`, or `|arena|`. */
  function IndexOf(arena: seq<string>, s: string): (i: nat)
    ensures i <= |arena|
    ensures i < |arena| <==> s in arena
    ensures i < |arena| ==> arena[i] == s
    ensures forall j :: 0 <= j < i ==> arena[j] != s
  {
    if arena == [] then 0
    else if arena[|arena| - 1] == s && s !in arena[..|arena| - 1] then |arena| - 1
    else if s in arena[..|arena| - 1] then IndexOf(arena[..|arena| - 1], s)
    else |arena|
  }

  /**
   * Interning as a function of the arena: an already-stored string gets its
   * existing symbol; a new one is appended and gets the next index.
   */
  function InternSpec(arena: seq<string>, s: string): (seq<string>, Symbol)
  {
    if s in arena then (arena, IndexOf(arena, s)) else (arena + [s], |arena|)
  }

  /** Looking up the symbol `intern` returned gives back the interned string. */
  lemma InternThenIndex(arena: seq<string>, s: string)
    ensures InternSpec(arena, s).1 < |InternSpec(arena, s).0|
    ensures InternSpec(arena, s).0[InternSpec(arena, s).1] == s
  {
  }

  /**
   * Interning never moves or removes what is stored, interning an equal string
   * again yields the same symbol and leaves the arena alone, and a string not
   * stored yet gets the next consecutive symbol.
   */
  lemma InternStable(arena: seq<string>, s: string)
    ensures arena <= InternSpec(arena, s).0
    ensures s in arena ==> InternSpec(arena, s).0 == arena
    ensures s !in arena ==> InternSpec(arena, s).1 == |arena| && |InternSpec(arena, s).0| == |arena| + 1
    ensures InternSpec(InternSpec(arena, s).0, s) == InternSpec(arena, s)
  {
  }

  /** Interning keeps the arena free of duplicates, so symbols and strings correspond one to one. */
  lemma InternKeepsDistinct(arena: seq<string>, s: string)
    requires Distinct(arena)
    ensures Distinct(InternSpec(arena, s).0)
    ensures forall t :: t in InternSpec(arena, s).0 ==> InternSpec(InternSpec(arena, s).0, t).0 == InternSpec(arena, s).0
  {
  }

  /** The (symbol, string) pairs from index `from` on, in symbol order. */
  function Entries(arena: seq<string>, from: nat): (r: seq<(Symbol, string)>)
    ensures |r| == if from <= |arena| then |arena| - from else 0
    ensures forall k :: 0 <= k < |r| ==> r[k] == (from + k, arena[from + k])
    decreases |arena| - from
  {
    if from >= |arena| then [] else [(from, arena[from])] + Entries(arena, from + 1)
  }

  lemma EntriesStep(arena: seq<string>, from: nat, items: seq<(Symbol, string)>)
    requires from < |arena|
    ensures items + Entries(arena, from) == (items + [(from, arena[from])]) + Entries(arena, from + 1)
  {
    assert Entries(arena, from) == [(from, arena[from])] + Entries(arena, from + 1);
  }

  /** The interner: `arena` holds the strings, `lookup` is the hash index over them. */
  class Interner {
    var arena: seq<string>
    var lookup: map<string, Symbol>

    ghost predicate Valid()
      reads this
    {
      |arena| >= 1 && arena[UNKNOWN_SYMBOL] == UNKNOWN &&
      (forall s :: s in lookup ==> lookup[s] < |arena| && arena[lookup[s]] == s) &&
      (forall i :: 0 <= i < |arena| ==> arena[i] in lookup && lookup[arena[i]] == i)
    }

    /** `Interner::new`: `"<unknown>"` is interned first and so gets `UNKNOWN_SYMBOL`. */
    constructor ()
      ensures Valid()
      ensures arena == [UNKNOWN]
    {
      arena := [UNKNOWN];
      lookup := map[UNKNOWN := UNKNOWN_SYMBOL];
    }

    /** `Interner::intern`. */
    method Intern(s: string) returns (sym: Symbol)
      requires Valid()
      modifies this
      ensures Valid()
      ensures (arena, sym) == InternSpec(old(arena), s)
    {
      if s in lookup {
        sym := lookup[s];
        ArenaIsDistinct();
        assert s in arena;
      } else {
        assert s !in arena;
        sym := |arena|;
        arena := arena + [s];
        lookup := lookup[s := sym];
      }
    }

    /** `Index<Symbol>`: the string of a symbol this interner handed out. */
    function Get(sym: Symbol): (s: string)
      reads this
      requires Valid() && sym < |arena|
      ensures s in lookup && lookup[s] == sym
    {
      arena[sym]
    }

    lemma ArenaIsDistinct()
      requires Valid()
      ensures Distinct(arena)
    {
    }

    /** `Interner::iter`: starts after `UNKNOWN_SYMBOL`. */
    method Iter() returns (it: InternerIter)
      requires Valid()
      ensures fresh(it)
      ensures it.interner == this && it.currentIndex == 1
    {
      it := new InternerIter(this);
    }
  }

  /** `intern::Iter`: walks the arena by index. */
  class InternerIter {
    const interner: Interner
    var currentIndex: nat

    constructor (interner: Interner)
      ensures this.interner == interner && currentIndex == 1
    {
      this.interner := interner;
      currentIndex := 1;
    }

    /** `Iter::next`: the next (symbol, string) pair, or None past the last interned string. */
    method Next() returns (r: Option<(Symbol, string)>)
      requires interner.Valid()
      modifies this
      ensures old(currentIndex) >= |interner.arena| ==> r == None && currentIndex == old(currentIndex)
      ensures old(currentIndex) < |interner.arena| ==>
                r == Some((old(currentIndex), interner.arena[old(currentIndex)])) && currentIndex == old(currentIndex) + 1
    {
      if currentIndex >= |interner.arena| {
        r := None;
      } else {
        var symbol := currentIndex;
        currentIndex := currentIndex + 1;
        r := Some((symbol, interner.Get(symbol)));
      }
    }

    /** `iter().collect()`: pulls pairs until the iterator is exhausted. */
    method Collect() returns (items: seq<(Symbol, string)>)
      requires interner.Valid()
      modifies this
      ensures items == Entries(interner.arena, old(currentIndex))
    {
      items := [];
      ghost var start := currentIndex;
      ghost var arena := interner.arena;
      while true
        invariant interner.Valid() && interner.arena == arena
        invariant start <= |arena| ==> start <= currentIndex <= |arena|
        invariant start > |arena| ==> currentIndex == start
        invariant Entries(arena, start) == items + Entries(arena, currentIndex)
        decreases |arena| - currentIndex
      {
        ghost var before := currentIndex;
        var next := Next();
        if next.None? {
          return;
        }
        assert next.value == (before, arena[before]) && currentIndex == before + 1;
        EntriesStep(arena, before, items);
        items := items + [next.value];
      }
    }
  }

  /**
   * The doc examples: interning "one", "two", "three" and "one" again into a new
   * interner gives symbols 1, 2, 3 and 1, and iterating yields the three strings
   * with their symbols, in insertion order.
   */
  lemma InternDocExample()
    ensures var (a1, s1) := InternSpec([UNKNOWN], "one");
            var (a2, s2) := InternSpec(a1, "two");
            var (a3, s3) := InternSpec(a2, "three");
            var (a4, s4) := InternSpec(a3, "one");
            s1 == s4 == 1 && s2 == 2 && s3 == 3 && a4 == a3 &&
            Entries(a4, 1) == [(1, "one"), (2, "two"), (3, "three")]
  {
    assert "one" !in [UNKNOWN] by { assert "one"[0] != UNKNOWN[0]; }
    var a1 := [UNKNOWN, "one"];
    assert "two" !in a1 by { assert "two"[0] != UNKNOWN[0] && "two"[0] != "one"[0]; }
    var a2 := a1 + ["two"];
    assert "three" !in a2 by { assert "three"[0] != UNKNOWN[0] && "three"[0] != "one"[0] && "three"[1] != "two"[1]; }
    var a3 := a2 + ["three"];
    assert a3[1] == "one" && IndexOf(a3, "one") == 1;
    assert Entries(a3, 1) == [(1, "one"), (2, "two"), (3, "three")];
  }
}
