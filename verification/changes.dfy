/** Status-change detection between an old and a new shipment table: inner
    join on (Destino, Fecha, Producto), keep the pairs whose status differs,
    then keep only the last such pair of each key. */
module ChangeDetection {
  import opened Snapshot

  /** The composite key the two tables are joined on. */
  datatype Key = Key(destino: string, fecha: string, producto: string)

  function KeyOf(r: Row): Key {
    Key(r.destino, r.fecha, r.producto)
  }

  /** One row of the merged table: an old row and a new row sharing a key;
      the old status is `before.estado`, the new one `after.estado`. */
  datatype Pair = Pair(before: Row, after: Row)

  function PairKey(p: Pair): Key {
    KeyOf(p.before)
  }

  function KeysOf(ps: seq<Pair>): set<Key> {
    set p | p in ps :: PairKey(p)
  }

  /** No two rows of `rows` share a key. */
  predicate UniqueKeys(rows: seq<Row>) {
    forall i, j :: 0 <= i < j < |rows| ==> KeyOf(rows[i]) != KeyOf(rows[j])
  }

  /** `a` is `b` with some elements left out, the rest in their order. */
  predicate IsSubsequence<T(==)>(a: seq<T>, b: seq<T>) {
    if a == [] then true
    else if b == [] then false
    else if a[0] == b[0] then IsSubsequence(a[1..], b[1..])
    else IsSubsequence(a, b[1..])
  }

  /** The merged rows one old row contributes: one per new row with its key,
      in the new table's order. */
  function MatchesOf(r: Row, news: seq<Row>): (ps: seq<Pair>)
    ensures forall p :: p in ps <==> p.before == r && p.after in news && KeyOf(p.after) == KeyOf(r)
  {
    if news == [] then []
    else
      (if KeyOf(news[0]) == KeyOf(r) then [Pair(r, news[0])] else [])
      + MatchesOf(r, news[1..])
  }

  /** Inner join on the key: old rows in their order, each followed by its
      matching new rows in theirs. A pair is in the join exactly when it
      couples an old row and a new row with the same key. */
  function Join(olds: seq<Row>, news: seq<Row>): (ps: seq<Pair>)
    ensures forall p :: p in ps <==>
      p.before in olds && p.after in news && KeyOf(p.before) == KeyOf(p.after)
  {
    if olds == [] then [] else MatchesOf(olds[0], news) + Join(olds[1..], news)
  }

  /** The merged rows whose old and new status differ, in join order. */
  function StatusChanged(ps: seq<Pair>): (r: seq<Pair>)
    ensures forall p :: p in r <==> p in ps && p.before.estado != p.after.estado
  {
    if ps == [] then []
    else
      (if ps[0].before.estado != ps[0].after.estado then [ps[0]] else [])
      + StatusChanged(ps[1..])
  }

  /** The join is built old row by old row: the merged rows of two runs of
      old rows are those of the first run followed by those of the second. */
  lemma {:induction false} JoinConcat(a: seq<Row>, b: seq<Row>, news: seq<Row>)
    ensures Join(a + b, news) == Join(a, news) + Join(b, news)
  {
    if a == [] {
      assert a + b == b;
    } else {
      assert (a + b)[0] == a[0];
      assert (a + b)[1..] == a[1..] + b;
      JoinConcat(a[1..], b, news);
    }
  }

  /** The matches of one old row follow the new table: those among two runs
      of new rows are the first run's followed by the second's. */
  lemma {:induction false} MatchesOfConcat(r: Row, a: seq<Row>, b: seq<Row>)
    ensures MatchesOf(r, a + b) == MatchesOf(r, a) + MatchesOf(r, b)
  {
    if a == [] {
      assert a + b == b;
    } else {
      var head := if KeyOf(a[0]) == KeyOf(r) then [Pair(r, a[0])] else [];
      assert (a + b)[1..] == a[1..] + b;
      assert MatchesOf(r, a + b) == head + MatchesOf(r, a[1..] + b);
      MatchesOfConcat(r, a[1..], b);
    }
  }

  /** The status filter keeps order and multiplicity: it filters two runs of
      merged rows independently. */
  lemma {:induction false} StatusChangedConcat(a: seq<Pair>, b: seq<Pair>)
    ensures StatusChanged(a + b) == StatusChanged(a) + StatusChanged(b)
  {
    if a == [] {
      assert a + b == b;
    } else {
      assert (a + b)[0] == a[0];
      assert (a + b)[1..] == a[1..] + b;
      StatusChangedConcat(a[1..], b);
    }
  }

  /** A merged table in which no status changed yields no candidate. */
  lemma {:induction false} UnchangedFiltersToNothing(ps: seq<Pair>)
    requires forall p :: p in ps ==> p.before.estado == p.after.estado
    ensures StatusChanged(ps) == []
  {
    if ps != [] {
      assert ps[0] in ps;
      UnchangedFiltersToNothing(ps[1..]);
    }
  }

  /** Deduplication on the key keeping the last occurrence: an element stays
      when no later element has its key. */
  function KeepLast(ps: seq<Pair>): (r: seq<Pair>)
    ensures |r| <= |ps|
    ensures forall p :: p in r ==> p in ps
  {
    if ps == [] then []
    else
      (if PairKey(ps[0]) in KeysOf(ps[1..]) then [] else [ps[0]])
      + KeepLast(ps[1..])
  }

  lemma KeysOfConcat(a: seq<Pair>, b: seq<Pair>)
    ensures KeysOf(a + b) == KeysOf(a) + KeysOf(b)
  {
  }

  /** Deduplication loses no key. */
  lemma {:induction false} KeepLastKeys(ps: seq<Pair>)
    ensures KeysOf(KeepLast(ps)) == KeysOf(ps)
  {
    if ps != [] {
      KeepLastKeys(ps[1..]);
      assert ps == [ps[0]] + ps[1..];
      KeysOfConcat([ps[0]], ps[1..]);
      var head := if PairKey(ps[0]) in KeysOf(ps[1..]) then [] else [ps[0]];
      KeysOfConcat(head, KeepLast(ps[1..]));
    }
  }

  /** After deduplication no two elements share a key. */
  lemma {:induction false} KeepLastUnique(ps: seq<Pair>)
    ensures forall i, j :: 0 <= i < j < |KeepLast(ps)| ==> PairKey(KeepLast(ps)[i]) != PairKey(KeepLast(ps)[j])
  {
    if ps != [] {
      KeepLastUnique(ps[1..]);
      KeepLastKeys(ps[1..]);
      var rest := KeepLast(ps[1..]);
      if PairKey(ps[0]) !in KeysOf(ps[1..]) {
        assert KeepLast(ps) == [ps[0]] + rest;
        forall j | 0 < j < |KeepLast(ps)|
          ensures PairKey(KeepLast(ps)[0]) != PairKey(KeepLast(ps)[j])
        {
          assert KeepLast(ps)[j] == rest[j - 1];
          assert rest[j - 1] in rest;
        }
      } else {
        assert KeepLast(ps) == rest;
      }
    }
  }

  /** An element survives deduplication exactly when it is, at some
      position, followed by no element with its key: it is the last pair of
      its key. */
  lemma {:induction false} KeepLastIsLast(ps: seq<Pair>, p: Pair)
    ensures p in KeepLast(ps) <==>
      exists i :: 0 <= i < |ps| && ps[i] == p && PairKey(p) !in KeysOf(ps[i + 1..])
  {
    if ps != [] {
      KeepLastIsLast(ps[1..], p);
      var rest := ps[1..];
      if p in KeepLast(ps) {
        if p in KeepLast(rest) {
          var i :| 0 <= i < |rest| && rest[i] == p && PairKey(p) !in KeysOf(rest[i + 1..]);
          assert ps[i + 1] == p && ps[i + 2..] == rest[i + 1..];
        } else {
          assert p == ps[0] && PairKey(p) !in KeysOf(ps[1..]);
        }
      }
      if exists i :: 0 <= i < |ps| && ps[i] == p && PairKey(p) !in KeysOf(ps[i + 1..]) {
        var i :| 0 <= i < |ps| && ps[i] == p && PairKey(p) !in KeysOf(ps[i + 1..]);
        if i == 0 {
          assert KeepLast(ps) == [p] + KeepLast(rest);
        } else {
          assert rest[i - 1] == p && rest[i..] == ps[i + 1..];
          assert p in KeepLast(rest);
        }
      }
    }
  }

  /** The positions from `from` on that hold the last pair of their key,
      in increasing order. */
  function LastPositions(ps: seq<Pair>, from: nat): (idx: seq<nat>)
    requires from <= |ps|
    ensures forall k :: 0 <= k < |idx| ==> from <= idx[k] < |ps|
    ensures forall k, l :: 0 <= k < l < |idx| ==> idx[k] < idx[l]
    decreases |ps| - from
  {
    if from == |ps| then []
    else
      (if PairKey(ps[from]) in KeysOf(ps[from + 1..]) then [] else [from])
      + LastPositions(ps, from + 1)
  }

  /** A position is listed exactly when it holds the last pair of its key. */
  lemma {:induction false} LastPositionsAre(ps: seq<Pair>, from: nat, i: nat)
    requires from <= |ps|
    ensures i in LastPositions(ps, from) <==> from <= i < |ps| && PairKey(ps[i]) !in KeysOf(ps[i + 1..])
    decreases |ps| - from
  {
    if from < |ps| {
      LastPositionsAre(ps, from + 1, i);
      var head := if PairKey(ps[from]) in KeysOf(ps[from + 1..]) then [] else [from];
      var rest := LastPositions(ps, from + 1);
      assert LastPositions(ps, from) == head + rest;
      assert i in head + rest <==> i in head || i in rest;
    }
  }

  /** Deduplication by position: the survivors are exactly the pairs at the
      last position of their key, in the order of those positions. */
  lemma KeepLastAtPositions(ps: seq<Pair>)
    ensures var idx := LastPositions(ps, 0);
      && |KeepLast(ps)| == |idx|
      && forall k :: 0 <= k < |idx| ==> KeepLast(ps)[k] == ps[idx[k]]
  {
    assert ps[0..] == ps;
    KeepLastFrom(ps, 0);
  }

  lemma {:induction false} KeepLastFrom(ps: seq<Pair>, from: nat)
    requires from <= |ps|
    ensures var idx := LastPositions(ps, from);
      && |KeepLast(ps[from..])| == |idx|
      && forall k :: 0 <= k < |idx| ==> KeepLast(ps[from..])[k] == ps[idx[k]]
    decreases |ps| - from
  {
    if from < |ps| {
      KeepLastFrom(ps, from + 1);
      var tail := ps[from..];
      assert tail[1..] == ps[from + 1..];
      var rest := LastPositions(ps, from + 1);
      var kept := KeepLast(ps[from + 1..]);
      if PairKey(ps[from]) in KeysOf(ps[from + 1..]) {
        assert KeepLast(tail) == kept;
        assert LastPositions(ps, from) == rest;
      } else {
        assert KeepLast(tail) == [ps[from]] + kept;
        assert LastPositions(ps, from) == [from] + rest;
      }
    }
  }

  /** Deduplication keeps the survivors in their original order. */
  lemma {:induction false} KeepLastSubsequence(ps: seq<Pair>)
    ensures IsSubsequence(KeepLast(ps), ps)
  {
    if ps != [] {
      KeepLastSubsequence(ps[1..]);
      if PairKey(ps[0]) in KeysOf(ps[1..]) {
        assert KeepLast(ps) == KeepLast(ps[1..]);
        SkipHead(KeepLast(ps[1..]), ps);
      } else {
        assert KeepLast(ps) == [ps[0]] + KeepLast(ps[1..]);
      }
    }
  }

  /** Dropping the head of the longer sequence keeps the relation. */
  lemma {:induction false} SkipHead<T>(a: seq<T>, b: seq<T>)
    requires b != [] && IsSubsequence(a, b[1..])
    ensures IsSubsequence(a, b)
  {
    if a != [] && a[0] == b[0] {
      SubsequenceTail(a, b[1..]);
    }
  }

  lemma {:induction false} SubsequenceTail<T>(a: seq<T>, b: seq<T>)
    requires a != [] && IsSubsequence(a, b)
    ensures IsSubsequence(a[1..], b)
  {
    if a[0] == b[0] {
      SkipHead(a[1..], b);
    } else {
      SubsequenceTail(a, b[1..]);
      SkipHead(a[1..], b);
    }
  }

  /** The four columns both tables must have. */
  const Required: set<Column> := {Destino, Fecha, Producto, Estado}

  /** Either the changes found, or the columns whose absence makes the merge
      or the status comparison fail. */
  datatype Detection = Detected(changes: seq<Pair>) | MissingColumns(missing: set<Column>)

  /** The merged rows of the cleaned tables whose status changed, in join
      order, before deduplication. */
  function Candidates(oldT: Table, newT: Table, foldDate: string -> string): (ps: seq<Pair>)
    ensures forall p :: p in ps <==>
      && p.before in CleanTable(oldT, foldDate).rows
      && p.after in CleanTable(newT, foldDate).rows
      && KeyOf(p.before) == KeyOf(p.after)
      && p.before.estado != p.after.estado
  {
    StatusChanged(Join(CleanTable(oldT, foldDate).rows, CleanTable(newT, foldDate).rows))
  }

  /** `check_and_notify_on_change` up to its notification loop. */
  function DetectChanges(oldT: Table, newT: Table, foldDate: string -> string): (d: Detection)
    ensures d.MissingColumns? <==> !(Required <= oldT.columns && Required <= newT.columns)
    ensures d.MissingColumns? ==> d.missing != {} && d.missing <= Required
  {
    if Required <= oldT.columns && Required <= newT.columns then
      Detected(KeepLast(Candidates(oldT, newT, foldDate)))
    else
      var missing := set c | c in Required && (c !in oldT.columns || c !in newT.columns);
      assert Destino in missing || Fecha in missing || Producto in missing || Estado in missing;
      MissingColumns(missing)
  }

  /** Every reported change couples a cleaned old row and a cleaned new row
      with the same key and different statuses, and no key is reported twice. */
  lemma DetectChangesSound(oldT: Table, newT: Table, foldDate: string -> string)
    ensures var d := DetectChanges(oldT, newT, foldDate);
      d.Detected? ==>
        && (forall c :: c in d.changes ==>
              && c.before in CleanTable(oldT, foldDate).rows
              && c.after in CleanTable(newT, foldDate).rows
              && KeyOf(c.before) == KeyOf(c.after)
              && c.before.estado != c.after.estado)
        && (forall i, j :: 0 <= i < j < |d.changes| ==> PairKey(d.changes[i]) != PairKey(d.changes[j]))
  {
    var d := DetectChanges(oldT, newT, foldDate);
    if d.Detected? {
      var candidates := Candidates(oldT, newT, foldDate);
      forall c | c in d.changes ensures c in candidates {
        KeepLastIsLast(candidates, c);
      }
      KeepLastUnique(candidates);
    }
  }

  /** Every old/new row pair with the same key and different statuses has
      its key reported. */
  lemma DetectChangesComplete(oldT: Table, newT: Table, foldDate: string -> string, o: Row, n: Row)
    requires o in CleanTable(oldT, foldDate).rows && n in CleanTable(newT, foldDate).rows
    requires KeyOf(o) == KeyOf(n) && o.estado != n.estado
    ensures var d := DetectChanges(oldT, newT, foldDate);
      d.Detected? ==> KeyOf(o) in KeysOf(d.changes)
  {
    var d := DetectChanges(oldT, newT, foldDate);
    if d.Detected? {
      var candidates := Candidates(oldT, newT, foldDate);
      KeepLastKeys(candidates);
      assert Pair(o, n) in candidates;
      assert PairKey(Pair(o, n)) in KeysOf(candidates);
    }
  }

  /** The change reported for a key is the last status-changing pair of that
      key in join order. */
  lemma DetectChangesKeepsLast(oldT: Table, newT: Table, foldDate: string -> string, c: Pair)
    ensures var d := DetectChanges(oldT, newT, foldDate);
      var candidates := Candidates(oldT, newT, foldDate);
      d.Detected? && c in d.changes ==>
        exists i :: 0 <= i < |candidates| && candidates[i] == c && PairKey(c) !in KeysOf(candidates[i + 1..])
  {
    KeepLastIsLast(Candidates(oldT, newT, foldDate), c);
  }

  /** A row of the new table whose key no old row has (a brand-new record)
      is never reported. */
  lemma NewRecordsNotReported(oldT: Table, newT: Table, foldDate: string -> string, n: Row)
    requires n in CleanTable(newT, foldDate).rows
    requires forall o :: o in CleanTable(oldT, foldDate).rows ==> KeyOf(o) != KeyOf(n)
    ensures var d := DetectChanges(oldT, newT, foldDate);
      d.Detected? ==> KeyOf(n) !in KeysOf(d.changes) && forall c :: c in d.changes ==> c.after != n
  {
    DetectChangesSound(oldT, newT, foldDate);
  }

  /** Comparing a table with itself reports nothing when its cleaned keys are
      unique. */
  lemma NoChangesAgainstItself(t: Table, foldDate: string -> string)
    requires UniqueKeys(CleanTable(t, foldDate).rows)
    ensures var d := DetectChanges(t, t, foldDate);
      d.MissingColumns? || d.changes == []
  {
    var rows := CleanTable(t, foldDate).rows;
    var joined := Join(rows, rows);
    forall p | p in joined ensures p.before == p.after {
      var i :| 0 <= i < |rows| && rows[i] == p.before;
      var j :| 0 <= j < |rows| && rows[j] == p.after;
      assert KeyOf(rows[i]) == KeyOf(rows[j]);
      assert i == j;
    }
    UnchangedFiltersToNothing(joined);
  }
}
