/** The memory model that decides which values a cached read may still give
    (tb/gfx_shader_bind/testbench/models.py). */
module ShaderMemory {
  import opened Options
  import opened Powers

  datatype Event = Read(word: int) | Write(word: int, data: int)

  /** A run: which words exist, and what happened so far. */
  datatype Run = Run(start: int, words: int, ones: int, events: seq<Event>)

  predicate InRange(r: Run, w: int) { 0 <= w - r.start < r.words }

  function Upto(r: Run, i: nat): Run
    requires i <= |r.events|
  {
    r.(events := r.events[..i])
  }

  /** The last value written to a word. */
  function Written(r: Run, w: int): Option<int>
    decreases |r.events|
  {
    if r.events == [] then None
    else
      var e := r.events[|r.events| - 1];
      if e.Write? && e.word == w && InRange(r, w) then Some(e.data) else Written(Upto(r, |r.events| - 1), w)
  }

  /** What a word holds; all ones before the first write. */
  function Held(r: Run, w: int): int {
    var v := Written(r, w);
    if v.Some? then v.value else r.ones
  }

  ghost predicate Observed(r: Run, w: int) {
    InRange(r, w) && Read(w) in r.events
  }

  /** Everything that a word has held since it was first read. */
  ghost function HeldSince(r: Run, w: int): set<int> {
    set i | 0 <= i <= |r.events| && Observed(Upto(r, i), w) :: Held(Upto(r, i), w)
  }

  /** Every value that a read of the word has given. */
  ghost function Given(r: Run, w: int): set<int> {
    set i | 0 <= i < |r.events| && r.events[i] == Read(w) :: Held(Upto(r, i), w)
  }

  function Next(r: Run, e: Event): Run { r.(events := r.events + [e]) }

  lemma UptoNext(r: Run, e: Event, i: nat)
    requires i <= |r.events|
    ensures Upto(Next(r, e), i) == Upto(r, i) && Upto(Next(r, e), |r.events| + 1) == Next(r, e)
    ensures Upto(r, |r.events|) == r
  {
    assert Next(r, e).events[..i] == r.events[..i];
    assert Next(r, e).events[..|r.events| + 1] == Next(r, e).events;
    assert r.events[..|r.events|] == r.events;
  }

  lemma WrittenNext(r: Run, e: Event, w: int)
    ensures Written(Next(r, e), w) == if e.Write? && e.word == w && InRange(r, w) then Some(e.data) else Written(r, w)
  {
    UptoNext(r, e, |r.events|);
  }

  lemma HeldSinceGrows(r: Run, e: Event, w: int, v: int)
    requires v in HeldSince(r, w) || (Observed(Next(r, e), w) && v == Held(Next(r, e), w))
    ensures v in HeldSince(Next(r, e), w)
  {
    var n := |r.events|;
    UptoNext(r, e, n);
    var j := n + 1;
    if v in HeldSince(r, w) {
      j :| 0 <= j <= n && Observed(Upto(r, j), w) && v == Held(Upto(r, j), w);
      UptoNext(r, e, j);
    }
    assert Observed(Upto(Next(r, e), j), w) && v == Held(Upto(Next(r, e), j), w);
  }

  lemma HeldSinceOnly(r: Run, e: Event, w: int, v: int)
    requires v in HeldSince(Next(r, e), w)
    ensures v in HeldSince(r, w) || (Observed(Next(r, e), w) && v == Held(Next(r, e), w))
  {
    var n := |r.events|;
    var i :| 0 <= i <= n + 1 && Observed(Upto(Next(r, e), i), w) && v == Held(Upto(Next(r, e), i), w);
    if i <= n {
      UptoNext(r, e, i);
      assert Observed(Upto(r, i), w) && v == Held(Upto(r, i), w);
    } else {
      UptoNext(r, e, n);
    }
  }

  lemma HeldSinceNext(r: Run, e: Event, w: int)
    ensures HeldSince(Next(r, e), w) == HeldSince(r, w) + if Observed(Next(r, e), w) then {Held(Next(r, e), w)} else {}
  {
    var s' := HeldSince(Next(r, e), w);
    var t := HeldSince(r, w) + if Observed(Next(r, e), w) then {Held(Next(r, e), w)} else {};
    forall v | v in s' ensures v in t {
      HeldSinceOnly(r, e, w, v);
    }
    forall v | v in t ensures v in s' {
      HeldSinceGrows(r, e, w, v);
    }
  }

  /** Nothing is known to have been held before the first read. */
  lemma HeldSinceUnread(r: Run, w: int)
    requires !Observed(r, w)
    ensures HeldSince(r, w) == {}
  {
    forall i | 0 <= i <= |r.events|
      ensures !Observed(Upto(r, i), w)
    {
      assert forall x :: x in r.events[..i] ==> x in r.events;
    }
  }

  /** A value that was read was held since the first read. */
  lemma GivenWasHeld(r: Run, w: int)
    requires InRange(r, w)
    ensures Given(r, w) <= HeldSince(r, w)
  {
    forall i | 0 <= i < |r.events| && r.events[i] == Read(w)
      ensures Held(Upto(r, i), w) in HeldSince(r, w)
    {
      var t := Upto(r, i + 1);
      assert t == Next(Upto(r, i), Read(w));
      assert t.events[i] == Read(w) && Observed(t, w);
      WrittenNext(Upto(r, i), Read(w), w);
      assert Held(t, w) == Held(Upto(r, i), w);
    }
  }

  function Get<V>(m: map<int, V>, w: int): Option<V> {
    if w in m then Some(m[w]) else None
  }

  function Stale(dirty: Option<set<int>>): set<int> {
    if dirty.Some? then dirty.value else {}
  }

  /** What the tables know about a word follows its history. */
  ghost predicate Follows(r: Run, w: int, data: Option<int>, dirty: Option<set<int>>, observed: bool) {
    && data == Written(r, w)
    && (observed <==> Observed(r, w))
    && (observed ==> HeldSince(r, w) == Stale(dirty) + {Held(r, w)})
    && (dirty.Some? ==> observed && dirty.value != {})
  }

  lemma ReadFollows(r: Run, e: Event, w: int, data: Option<int>, dirty: Option<set<int>>, observed: bool)
    requires Follows(r, w, data, dirty, observed) && e.Read?
    ensures Follows(Next(r, e), w, data, dirty, observed || (e.word == w && InRange(r, w)))
  {
    WrittenNext(r, e, w);
    HeldSinceNext(r, e, w);
    if !Observed(r, w) {
      HeldSinceUnread(r, w);
    }
  }

  /** A write to a word that was read leaves the old and the new value stale. */
  lemma WriteFollows(r: Run, e: Event, data: Option<int>, dirty: Option<set<int>>, observed: bool)
    requires Follows(r, e.word, data, dirty, observed) && e.Write? && InRange(r, e.word)
    ensures var held := if data.Some? then data.value else r.ones;
            var dirty' := if observed then Some(Stale(dirty) + {held} + {e.data}) else dirty;
            Follows(Next(r, e), e.word, Some(e.data), dirty', observed)
  {
    WrittenNext(r, e, e.word);
    HeldSinceNext(r, e, e.word);
  }

  lemma WriteElsewhere(r: Run, e: Event, w: int, data: Option<int>, dirty: Option<set<int>>, observed: bool)
    requires Follows(r, w, data, dirty, observed) && e.Write? && !(e.word == w && InRange(r, w))
    ensures Follows(Next(r, e), w, data, dirty, observed)
  {
    WrittenNext(r, e, w);
    HeldSinceNext(r, e, w);
  }

  /** What read_cached returns: an exception, one value, or a tuple of values. */
  datatype Cached = KeyError | One(value: int) | Any(values: set<int>)

  function Values(c: Cached): set<int> {
    match c case KeyError => {} case One(v) => {v} case Any(vs) => vs
  }

  class Memory {
    const start: int
    const words: int
    const allOnes: int
    var data: map<int, int>
    var dirty: map<int, set<int>>
    var observed: set<int>
    ghost var events: seq<Event>

    ghost function Past(): Run
      reads this
    {
      Run(start, words, allOnes, events)
    }

    /** The tables follow the history. */
    ghost predicate Valid()
      reads this
    {
      forall w :: Follows(Past(), w, Get(data, w), Get(dirty, w), w in observed)
    }

    constructor (start: int, words: int, wordSize: nat)
      ensures Valid() && Past() == Run(start, words, Pow2(8 * wordSize) - 1, [])
    {
      this.start, this.words := start, words;
      this.allOnes := Pow2(8 * wordSize) - 1;
      data, dirty, observed, events := map[], map[], {}, [];
    }

    method ReadWord(w: int) returns (word: int)
      requires Valid()
      modifies this
      ensures Valid() && events == old(events) + [Read(w)]
      ensures word == Held(old(Past()), w)
    {
      assert Follows(Past(), w, Get(data, w), Get(dirty, w), w in observed);
      ghost var (past, was) := (Past(), observed);
      if 0 <= w - start < words {
        observed := observed + {w};
      }
      word := if w in data then data[w] else allOnes;
      events := events + [Read(w)];
      forall x
        ensures Follows(Past(), x, Get(data, x), Get(dirty, x), x in observed)
      {
        ReadFollows(past, Read(w), x, Get(data, x), Get(dirty, x), x in was);
      }
    }

    method WriteWord(w: int, d: int)
      requires Valid()
      modifies this
      ensures Valid() && events == old(events) + [Write(w, d)]
    {
      ghost var (past, data0, dirty0) := (Past(), data, dirty);
      if 0 <= w - start < words {
        if w in observed {
          var held := if w in data then data[w] else allOnes;
          var stale := if w in dirty then dirty[w] else {};
          dirty := dirty[w := stale + {held} + {d}];
        }
        data := data[w := d];
      }
      events := events + [Write(w, d)];
      forall x
        ensures Follows(Past(), x, Get(data, x), Get(dirty, x), x in observed)
      {
        if x == w && InRange(past, w) {
          WriteFollows(past, Write(w, d), Get(data0, w), Get(dirty0, w), w in observed);
        } else {
          WriteElsewhere(past, Write(w, d), x, Get(data0, x), Get(dirty0, x), x in observed);
        }
      }
    }

    /** The oracle is exact: for a word that has been written, it gives what the word has held since it was first
        read, and just what it holds if it never was. So every value a read has given is among them. */
    method ReadCached(addr: nat) returns (c: Cached)
      requires Valid()
      ensures c == KeyError <==> Written(Past(), addr / 4) == None
      ensures c != KeyError ==>
                Values(c) == if Observed(Past(), addr / 4) then HeldSince(Past(), addr / 4)
                             else {Held(Past(), addr / 4)}
      ensures c != KeyError && InRange(Past(), addr / 4) ==> Given(Past(), addr / 4) <= Values(c)
    {
      var w := addr / 4;
      assert Follows(Past(), w, Get(data, w), Get(dirty, w), w in observed);
      if w !in data {
        return KeyError;
      }
      if w in dirty && dirty[w] != {} {
        c := Any(dirty[w] + {data[w]});
      } else {
        c := One(data[w]);
      }
      if InRange(Past(), w) {
        GivenWasHeld(Past(), w);
        if !Observed(Past(), w) {
          HeldSinceUnread(Past(), w);
        }
      }
    }
  }
}
