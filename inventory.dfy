/**
 The keyed snack store the service runs against: a map from slot number to
 snack plus a counter; a snack added goes under the counter plus one,
 which becomes the new counter, and a load sets the counter to one past
 the number of lines read. Loading reads one marshalled snack per line
 and numbers the lines from 1; saving writes one line per snack in stock.
 Lines stand for the file's contents; opening, reading and writing the
 file are not part of this model.
 */
module Inventory {
  import opened Snacks
  import opened Codec

  /** Every snack of `m` has at least one item left. */
  ghost predicate AllInStock(m: map<int, Snack>)
  {
    forall k :: k in m ==> m[k].count > 0
  }

  /** `f` applied to each line, in order. */
  function MapLines<T>(f: string -> T, lines: seq<string>): (rs: seq<T>)
    ensures |rs| == |lines|
    decreases |lines|
  {
    if lines == [] then []
    else MapLines(f, lines[..|lines| - 1]) + [f(lines[|lines| - 1])]
  }

  /** Line `j` is mapped on its own, whatever the lines around it. */
  lemma {:induction false} MapLinesAt<T>(f: string -> T, lines: seq<string>, j: nat)
    requires j < |lines|
    ensures MapLines(f, lines)[j] == f(lines[j])
    decreases |lines|
  {
    var init := lines[..|lines| - 1];
    if j < |init| {
      MapLinesAt(f, init, j);
      assert init[j] == lines[j];
    }
  }

  /** Each line on its own, decoded. */
  function Decodes(lines: seq<string>): (rs: seq<Option<Snack>>)
    ensures |rs| == |lines|
  {
    MapLines(Unmarshall, lines)
  }

  /**
   The decoded lines in order, or None when one of them is not a snack;
   built line by line as the load does.
   */
  function Collect(rs: seq<Option<Snack>>): (r: Option<seq<Snack>>)
    ensures r.Some? ==> |r.value| == |rs|
    decreases |rs|
  {
    if rs == [] then Some([])
    else
      match Collect(rs[..|rs| - 1])
      case None => None
      case Some(prefix) =>
        match rs[|rs| - 1]
        case None => None
        case Some(s) => Some(prefix + [s])
  }

  /** Collecting succeeds exactly when every line decoded, and then keeps each line's snack. */
  lemma {:induction false} CollectAll(rs: seq<Option<Snack>>)
    ensures Collect(rs).Some? <==> forall i :: 0 <= i < |rs| ==> rs[i].Some?
    ensures Collect(rs).Some? ==> forall i :: 0 <= i < |rs| ==> Collect(rs).value[i] == rs[i].value
    decreases |rs|
  {
    if rs != [] {
      var init := rs[..|rs| - 1];
      CollectAll(init);
      assert forall i :: 0 <= i < |init| ==> init[i] == rs[i];
    }
  }

  /** One more line: the collected snacks grow by its snack, or collecting fails. */
  lemma {:induction false} CollectStep(rs: seq<Option<Snack>>, n: nat)
    requires n < |rs|
    ensures Collect(rs[..n + 1]) ==
      match (Collect(rs[..n]), rs[n])
      case (Some(prefix), Some(s)) => Some(prefix + [s])
      case _ => None
  {
    assert rs[..n + 1][..n] == rs[..n];
  }

  /** Once a line fails to decode, every longer prefix fails too. */
  lemma {:induction false} CollectNoneExtends(rs: seq<Option<Snack>>, n: nat)
    requires n <= |rs|
    requires Collect(rs[..n]) == None
    ensures Collect(rs) == None
    decreases |rs| - n
  {
    if n < |rs| {
      assert rs[..n + 1][..n] == rs[..n];
      CollectNoneExtends(rs, n + 1);
    } else {
      assert rs[..n] == rs;
    }
  }

  /** All the lines as snacks, or None when one of them is not a snack. */
  function DecodeAll(lines: seq<string>): Option<seq<Snack>>
  {
    Collect(Decodes(lines))
  }

  /**
   The snacks in stock, each under its 1-based line number, built line by
   line as the load does.
   */
  function Numbered(ss: seq<Snack>): (m: map<int, Snack>)
    ensures AllInStock(m)
    decreases |ss|
  {
    if ss == [] then map[]
    else
      var m := Numbered(ss[..|ss| - 1]);
      if ss[|ss| - 1].count > 0 then m[|ss| := ss[|ss| - 1]] else m
  }

  /** One more line: its snack is added under the next number when in stock. */
  lemma {:induction false} NumberedStep(ss: seq<Snack>, s: Snack)
    ensures Numbered(ss + [s]) == if s.count > 0 then Numbered(ss)[|ss| + 1 := s] else Numbered(ss)
  {
    assert (ss + [s])[..|ss|] == ss;
  }

  /** Line n is kept, under number n, exactly when its snack is in stock. */
  lemma {:induction false} NumberedLines(ss: seq<Snack>)
    ensures forall n :: n in Numbered(ss) <==> 1 <= n <= |ss| && ss[n - 1].count > 0
    ensures forall n :: n in Numbered(ss) ==> Numbered(ss)[n] == ss[n - 1]
    decreases |ss|
  {
    if ss != [] {
      var init := ss[..|ss| - 1];
      NumberedLines(init);
      assert forall i :: 0 <= i < |init| ==> init[i] == ss[i];
    }
  }

  /** A saved line for every snack in stock of `m`, in the order of `keys`. */
  ghost predicate SavedAs(m: map<int, Snack>, keys: seq<int>, lines: seq<string>)
  {
    && |lines| == |keys|
    && (forall i, j :: 0 <= i < j < |keys| ==> keys[i] != keys[j])
    && (forall i :: 0 <= i < |keys| ==> keys[i] in m && m[keys[i]].count > 0)
    && (forall k :: k in m && m[k].count > 0 ==> k in keys)
    && (forall i :: 0 <= i < |keys| ==> lines[i] == Marshall(m[keys[i]]))
  }

  class Store {
    var snacks: map<int, Snack>
    var index: int

    /** No snack is kept under a number above the last one handed out. */
    ghost predicate Valid()
      reads this
    {
      forall k :: k in snacks ==> k <= index
    }

    /** An empty store; the first snack added gets number 1. */
    constructor ()
      ensures snacks == map[] && index == 0
      ensures Valid()
    {
      snacks := map[];
      index := 0;
    }

    /** The snack under `i`, or None (the source's null) when there is none. */
    function GetSnack(i: int): (r: Option<Snack>)
      reads this
      ensures r.Some? <==> i in snacks
      ensures r.Some? ==> r.value == snacks[i]
    {
      if i in snacks then Some(snacks[i]) else None
    }

    /** The whole stock, by number. */
    function GetMachineStock(): (m: map<int, Snack>)
      reads this
      ensures forall k :: k in m <==> GetSnack(k).Some?
      ensures forall k :: k in m ==> GetSnack(k) == Some(m[k])
    {
      snacks
    }

    /**
     Stores a new snack under the next number. Under Valid that number is
     free, so no snack is overwritten.
     */
    method AddSnack(name: string, count: Int32, price: int)
      requires Valid()
      modifies this
      ensures index == old(index) + 1
      ensures index !in old(snacks)
      ensures snacks == old(snacks)[index := Snack(name, count, price)]
      ensures Valid()
    {
      index := index + 1;
      snacks := snacks[index := Snack(name, count, price)];
    }

    /** Removes the snack under `i`; true exactly when there was one. */
    method RemoveSnack(i: int) returns (removed: bool)
      requires Valid()
      modifies this
      ensures removed <==> i in old(snacks)
      ensures snacks == old(snacks) - {i}
      ensures index == old(index)
      ensures Valid()
    {
      if i in snacks {
        snacks := snacks - {i};
        removed := true;
      } else {
        removed := false;
      }
    }

    /**
     Replaces the snack under `i`; true exactly when there was one. The
     numbers in use do not change.
     */
    method EditSnack(i: int, name: string, count: Int32, price: int) returns (edited: bool)
      requires Valid()
      modifies this
      ensures edited <==> i in old(snacks)
      ensures edited ==> snacks == old(snacks)[i := Snack(name, count, price)]
      ensures !edited ==> snacks == old(snacks)
      ensures snacks.Keys == old(snacks.Keys)
      ensures index == old(index)
      ensures Valid()
    {
      if i in snacks {
        snacks := snacks[i := Snack(name, count, price)];
        edited := true;
      } else {
        edited := false;
      }
    }

    /**
     Reads the stock from `lines`: line n (from 1) becomes snack n when its
     count is positive and is skipped otherwise; the counter is set to one
     past the last line. A line that is not a snack fails the whole
     load and leaves the store as it was.
     */
    method LoadMachineStock(lines: seq<string>) returns (ok: bool)
      requires Valid()
      modifies this
      ensures ok <==> DecodeAll(lines).Some?
      ensures ok ==> snacks == Numbered(DecodeAll(lines).value) && index == |lines| + 1
      ensures !ok ==> snacks == old(snacks) && index == old(index)
      ensures Valid()
    {
      ghost var rs := Decodes(lines);
      var loaded: map<int, Snack> := map[];
      ghost var decoded: seq<Snack> := [];
      var i := 1;
      while i <= |lines|
        invariant 1 <= i <= |lines| + 1
        invariant Collect(rs[..i - 1]) == Some(decoded)
        invariant loaded == Numbered(decoded)
        invariant |decoded| == i - 1
        invariant snacks == old(snacks) && index == old(index)
      {
        var s := ReadLine(lines, i - 1, rs);
        CollectStep(rs, i - 1);
        if s.None? {
          CollectNoneExtends(rs, i);
          return false;
        }
        NumberedStep(decoded, s.value);
        if s.value.count > 0 {
          loaded := loaded[i := s.value];
        }
        decoded := decoded + [s.value];
        i := i + 1;
      }
      assert rs[..|lines|] == rs;
      NumberedLines(decoded);
      index := i;
      snacks := loaded;
      ok := true;
    }

    /**
     Writes one line per snack in stock. The map's order is not specified,
     so `keys` records the order in which the snacks were written.
     */
    method SaveMachineStock() returns (lines: seq<string>, ghost keys: seq<int>)
      ensures SavedAs(snacks, keys, lines)
    {
      lines, keys := [], [];
      var remaining := snacks.Keys;
      while remaining != {}
        invariant remaining <= snacks.Keys
        invariant |lines| == |keys|
        invariant forall i, j :: 0 <= i < j < |keys| ==> keys[i] != keys[j]
        invariant forall i :: 0 <= i < |keys| ==> keys[i] in snacks && keys[i] !in remaining && snacks[keys[i]].count > 0
        invariant forall k :: k in snacks && k !in remaining && snacks[k].count > 0 ==> k in keys
        invariant forall i :: 0 <= i < |keys| ==> lines[i] == Marshall(snacks[keys[i]])
        decreases |remaining|
      {
        var k := Pick(remaining);
        if snacks[k].count > 0 {
          lines := lines + [Marshall(snacks[k])];
          keys := keys + [k];
        }
        remaining := remaining - {k};
      }
    }
  }

  /**
   A fresh store numbers its snacks from 1: the first snack added is found
   under 1 and the second under 2.
   */
  method FreshStoreNumbers() returns (first: Option<Snack>, second: Option<Snack>)
    ensures first == Some(Snack("Mars", 5, 70))
    ensures second == Some(Snack("KitKat", 2, 120))
  {
    var store := new Store();
    store.AddSnack("Mars", 5, 70);
    store.AddSnack("KitKat", 2, 120);
    first := store.GetSnack(1);
    second := store.GetSnack(2);
  }

  /** `unmarshallSnack` on line `j` of the load. */
  method ReadLine(lines: seq<string>, j: nat, ghost rs: seq<Option<Snack>>) returns (s: Option<Snack>)
    requires j < |lines| && rs == Decodes(lines)
    ensures s == rs[j]
  {
    s := Unmarshall(lines[j]);
    MapLinesAt(Unmarshall, lines, j);
  }

  /** Some element of a non-empty set, in no particular order. */
  method Pick<T>(s: set<T>) returns (x: T)
    requires s != {}
    ensures x in s
  {
    x :| x in s;
  }

  /** The saved lines decode, line i to the snack under keys[i], which is in stock. */
  lemma {:induction false} SavedLinesDecode(m: map<int, Snack>, keys: seq<int>, lines: seq<string>)
    requires SavedAs(m, keys, lines)
    requires forall k :: k in m && m[k].count > 0 ==> NoColon(m[k].name)
    ensures DecodeAll(lines).Some? && |DecodeAll(lines).value| == |keys|
    ensures forall i :: 0 <= i < |keys| ==> DecodeAll(lines).value[i] == m[keys[i]]
    ensures forall i :: 0 <= i < |keys| ==> DecodeAll(lines).value[i].count > 0
  {
    var rs := Decodes(lines);
    forall i | 0 <= i < |rs|
      ensures rs[i] == Some(m[keys[i]])
    {
      MapLinesAt(Unmarshall, lines, i);
      UnmarshallMarshall(m[keys[i]]);
    }
    CollectAll(rs);
  }

  /** When every line is in stock, line n is kept under n, for every n. */
  lemma {:induction false} NumberedAllInStock(ss: seq<Snack>)
    requires forall i :: 0 <= i < |ss| ==> ss[i].count > 0
    ensures forall n :: n in Numbered(ss) <==> 1 <= n <= |ss|
    ensures forall n :: 1 <= n <= |ss| ==> Numbered(ss)[n] == ss[n - 1]
  {
    NumberedLines(ss);
  }

  /**
   Saving and then loading: every snack in stock comes back exactly once,
   under the number of the line it was written on, provided no snack in
   stock has a name holding the delimiter's ':'. Snacks out of stock are
   not written, so their names do not matter, and they do not come back.
   */
  lemma {:induction false} SaveThenLoad(m: map<int, Snack>, keys: seq<int>, lines: seq<string>)
    requires SavedAs(m, keys, lines)
    requires forall k :: k in m && m[k].count > 0 ==> NoColon(m[k].name)
    ensures DecodeAll(lines).Some?
    ensures forall n :: n in Numbered(DecodeAll(lines).value) <==> 1 <= n <= |keys|
    ensures forall n :: 1 <= n <= |keys| ==> Numbered(DecodeAll(lines).value)[n] == m[keys[n - 1]]
  {
    SavedLinesDecode(m, keys, lines);
    NumberedAllInStock(DecodeAll(lines).value);
  }
}
