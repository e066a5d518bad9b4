/** The storage engine as the layer sees it: named plain tables and named multimap tables.
    A committed write transaction replaces this value; an aborted one leaves it as it was. */
module Storage {
  import opened Wrappers
  import opened Ordered
  import opened Multimap

  datatype Store<V> = Store(tables: map<string, map<Key, V>>, multimaps: map<string, MultimapTable>)

  /** A saved state of the whole store, with the time at which it was taken. */
  datatype Snapshot<V> = Snapshot(state: Store<V>, createdAt: int)

  /** The engine's invariant on stored multimap tables. */
  ghost predicate WellFormed<V>(s: Store<V>) {
    forall name :: name in s.multimaps ==> NoEmptySets(s.multimaps[name])
  }

  /** The plain table `name` as a write transaction opens it: opening creates a missing table,
      empty. */
  function TableOrEmpty<V>(s: Store<V>, name: string): (r: map<Key, V>)
    ensures name in s.tables ==> r == s.tables[name]
    ensures name !in s.tables ==> |r| == 0
  {
    if name in s.tables then s.tables[name] else map[]
  }

  /** The multimap table `name` as a write transaction opens it, created empty if missing. */
  function MultimapOrEmpty<V>(s: Store<V>, name: string): (m: MultimapTable)
    ensures name in s.multimaps ==> m == s.multimaps[name]
    ensures name !in s.multimaps ==> m == map[]
    ensures WellFormed(s) ==> NoEmptySets(m)
  {
    if name in s.multimaps then s.multimaps[name] else map[]
  }

  /** The store after a commit that leaves plain table `name` holding `t`. */
  function WithTable<V>(s: Store<V>, name: string, t: map<Key, V>): (r: Store<V>)
    ensures name in r.tables && r.tables[name] == t
    ensures forall other :: other != name ==> (other in r.tables <==> other in s.tables)
    ensures forall other :: other != name && other in s.tables ==> r.tables[other] == s.tables[other]
    ensures r.multimaps == s.multimaps
    ensures WellFormed(s) ==> WellFormed(r)
  {
    s.(tables := s.tables[name := t])
  }

  /** The store after a commit that leaves multimap table `name` holding `m`. */
  function WithMultimap<V>(s: Store<V>, name: string, m: MultimapTable): (r: Store<V>)
    ensures name in r.multimaps && r.multimaps[name] == m
    ensures forall other :: other != name ==> (other in r.multimaps <==> other in s.multimaps)
    ensures forall other :: other != name && other in s.multimaps ==> r.multimaps[other] == s.multimaps[other]
    ensures r.tables == s.tables
    ensures WellFormed(s) && NoEmptySets(m) ==> WellFormed(r)
  {
    s.(multimaps := s.multimaps[name := m])
  }

  // ---------------------------------------------------------------------------
  // Opening a plain table for reading (src/generic/internal.rs)

  /** True when opening plain table `name` for reading fails under `f`: the read transaction
      cannot be begun, the table cannot be opened for a reason other than its absence, or it
      is absent and either the write that creates it or the read that follows fails. */
  function ReadOpenFails<V>(s: Store<V>, name: string, f: Fault): (r: bool)
    ensures f.NoFault? || f.StepFails? || f.CommitFails? ==> !r
    ensures name in s.tables ==> (r <==> f.BeginFails? || f.OpenFails?)
    ensures name !in s.tables ==> (r <==> !(f.NoFault? || f.StepFails? || f.CommitFails?))
  {
    f.BeginFails? || f.OpenFails? || (name !in s.tables && (f.CreateFails? || f.ReopenFails?))
  }

  /** The store after opening plain table `name` for reading: a missing table is created empty
      by a committed write, unless that write itself fails. Nothing else is ever changed. */
  function AfterReadOpen<V>(s: Store<V>, name: string, f: Fault): (r: Store<V>)
    ensures name in s.tables ==> r == s
    ensures f.BeginFails? || f.OpenFails? ==> r == s
  {
    if name in s.tables || f.BeginFails? || f.OpenFails? || f.CreateFails? then s
    else WithTable(s, name, map[])
  }

  /** No read changes the contents of any table: the only effect of opening a table for
      reading is that a missing plain table may now exist, empty. A successful open yields
      exactly what a write transaction would see. */
  lemma ReadOpenKeepsContents<V>(s: Store<V>, name: string, f: Fault)
    ensures forall other :: TableOrEmpty(AfterReadOpen(s, name, f), other) == TableOrEmpty(s, other)
    ensures AfterReadOpen(s, name, f).multimaps == s.multimaps
    ensures s.tables.Keys <= AfterReadOpen(s, name, f).tables.Keys <= s.tables.Keys + {name}
    ensures !ReadOpenFails(s, name, f) ==> name in AfterReadOpen(s, name, f).tables
    ensures WellFormed(s) ==> WellFormed(AfterReadOpen(s, name, f))
  {
  }

  /** Opening for reading is idempotent on the store: a second open of the same table,
      whatever happens to it, changes nothing more. */
  lemma ReadOpenTwice<V>(s: Store<V>, name: string, f: Fault, g: Fault)
    requires !ReadOpenFails(s, name, f)
    ensures AfterReadOpen(AfterReadOpen(s, name, f), name, g) == AfterReadOpen(s, name, f)
    ensures !ReadOpenFails(AfterReadOpen(s, name, f), name, g) <==> !(g.BeginFails? || g.OpenFails?)
  {
  }
}
