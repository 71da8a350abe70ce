/** Grouping a table by prefix and scanning every group for its most preferred row. */
module Selection {
  import opened Orders

  /** The indices that hold prefix p, ascending. */
  function Members(prefixes: seq<string>, p: string): (idxs: seq<nat>)
    ensures Within(idxs, |prefixes|)
  {
    if prefixes == [] then []
    else
      var n := |prefixes| - 1;
      Members(prefixes[..n], p) + if prefixes[n] == p then [n] else []
  }

  lemma {:induction false} MembersAre(prefixes: seq<string>, p: string)
    ensures forall i :: i in Members(prefixes, p) <==> 0 <= i < |prefixes| && prefixes[i] == p
    ensures Rising(Members(prefixes, p))
  {
    if prefixes == [] {
    } else {
      MembersAre(prefixes[..|prefixes| - 1], p);
    }
  }

  ghost predicate Within(idxs: seq<nat>, n: nat) {
    forall k :: 0 <= k < |idxs| ==> idxs[k] < n
  }

  ghost predicate Rising(idxs: seq<nat>) {
    forall a, b :: 0 <= a < b < |idxs| ==> idxs[a] < idxs[b]
  }

  /** The winner of a left-to-right scan that replaces its champion only by a more preferred one. */
  function BestAmong<T>(more: (T, T) -> bool, prefs: seq<T>, idxs: seq<nat>): (best: nat)
    requires idxs != [] && Within(idxs, |prefs|)
    ensures best in idxs && best < |prefs|
  {
    var n := |idxs| - 1;
    if n == 0 then idxs[0]
    else
      var champion := BestAmong(more, prefs, idxs[..n]);
      if more(prefs[idxs[n]], prefs[champion]) then idxs[n] else champion
  }

  /** One more turn of the scan. */
  lemma ScanNext<T>(more: (T, T) -> bool, prefs: seq<T>, idxs: seq<nat>, n: nat)
    requires 0 < n < |idxs| && Within(idxs, |prefs|)
    ensures Within(idxs[..n], |prefs|) && Within(idxs[..n + 1], |prefs|)
    ensures var best := BestAmong(more, prefs, idxs[..n]);
      BestAmong(more, prefs, idxs[..n + 1]) == if more(prefs[idxs[n]], prefs[best]) then idxs[n] else best
  {
    assert idxs[..n + 1][..n] == idxs[..n];
  }

  /** Nothing in the list is preferred to `best`, and what comes before it is strictly worse. */
  ghost predicate FirstMaximum<T>(more: (T, T) -> bool, prefs: seq<T>, idxs: seq<nat>, best: nat)
    requires Within(idxs, |prefs|)
  {
    && best in idxs
    && (forall k :: 0 <= k < |idxs| ==> !more(prefs[idxs[k]], prefs[best]))
    && (forall k :: 0 <= k < |idxs| && idxs[k] < best ==> more(prefs[best], prefs[idxs[k]]))
  }

  lemma {:induction false} ScanFindsMaximum<T(!new)>(more: (T, T) -> bool, prefs: seq<T>, idxs: seq<nat>)
    requires StrictTotalOrder(more) && idxs != [] && Within(idxs, |prefs|) && Rising(idxs)
    ensures FirstMaximum(more, prefs, idxs, BestAmong(more, prefs, idxs))
  {
    var n := |idxs| - 1;
    if n > 0 {
      ScanFindsMaximum(more, prefs, idxs[..n]);
    }
  }

  /** The winner stated without a scan, for a whole table: entry i wins its prefix. */
  ghost predicate WinsPrefix<T>(more: (T, T) -> bool, prefixes: seq<string>, prefs: seq<T>, i: nat)
    requires i < |prefixes| == |prefs|
  {
    forall j :: 0 <= j < |prefixes| && prefixes[j] == prefixes[i] ==>
      !more(prefs[j], prefs[i]) && (j < i ==> more(prefs[i], prefs[j]))
  }

  lemma WinnerOfPrefix<T(!new)>(more: (T, T) -> bool, prefixes: seq<string>, prefs: seq<T>, i: nat)
    requires StrictTotalOrder(more) && i < |prefixes| == |prefs|
    ensures var idxs := Members(prefixes, prefixes[i]);
            idxs != [] && (i == BestAmong(more, prefs, idxs) <==> WinsPrefix(more, prefixes, prefs, i))
  {
    var idxs := Members(prefixes, prefixes[i]);
    MembersAre(prefixes, prefixes[i]);
    assert i in idxs;
    ScanFindsMaximum(more, prefs, idxs);
    var best := BestAmong(more, prefs, idxs);
    assert prefixes[best] == prefixes[i];
    forall j | 0 <= j < |prefixes| && prefixes[j] == prefixes[i]
      ensures !more(prefs[j], prefs[best]) && (j < best ==> more(prefs[best], prefs[j]))
    {
      assert j in idxs;
      var k :| 0 <= k < |idxs| && idxs[k] == j;
    }
  }

  ghost predicate WonBy<T>(more: (T, T) -> bool, prefixes: seq<string>, prefs: seq<T>, p: string, i: int)
    requires |prefixes| == |prefs|
  {
    0 <= i < |prefixes| && prefixes[i] == p && WinsPrefix(more, prefixes, prefs, i)
  }

  /** Every prefix of the table is won exactly once. */
  lemma OneWinner<T(!new)>(more: (T, T) -> bool, prefixes: seq<string>, prefs: seq<T>, p: string)
    requires StrictTotalOrder(more) && |prefixes| == |prefs| && p in prefixes
    ensures exists i :: WonBy(more, prefixes, prefs, p, i) && forall j :: WonBy(more, prefixes, prefs, p, j) ==> j == i
  {
    var k :| 0 <= k < |prefixes| && prefixes[k] == p;
    var idxs := Members(prefixes, p);
    MembersAre(prefixes, p);
    assert k in idxs;
    var i := BestAmong(more, prefs, idxs);
    WinnerOfPrefix(more, prefixes, prefs, i);
    assert WonBy(more, prefixes, prefs, p, i);
    forall j | WonBy(more, prefixes, prefs, p, j) ensures j == i {
      WinnerOfPrefix(more, prefixes, prefs, j);
    }
  }

  ghost predicate Grouped(prefixes: seq<string>, byPrefix: map<string, seq<nat>>) {
    && (forall p :: p in byPrefix <==> p in prefixes)
    && (forall p :: p in byPrefix ==> byPrefix[p] == Members(prefixes, p))
  }

  method GroupByPrefix(prefixes: seq<string>) returns (byPrefix: map<string, seq<nat>>)
    ensures Grouped(prefixes, byPrefix)
  {
    byPrefix := map[];
    for n := 0 to |prefixes|
      invariant Grouped(prefixes[..n], byPrefix)
    {
      var p := prefixes[n];
      GroupNext(prefixes, byPrefix, n);
      byPrefix := byPrefix[p := (if p in byPrefix then byPrefix[p] else []) + [n]];
    }
    assert prefixes[..|prefixes|] == prefixes;
  }

  lemma GroupNext(prefixes: seq<string>, byPrefix: map<string, seq<nat>>, n: nat)
    requires n < |prefixes| && Grouped(prefixes[..n], byPrefix)
    ensures var p := prefixes[n];
            Grouped(prefixes[..n + 1], byPrefix[p := (if p in byPrefix then byPrefix[p] else []) + [n]])
  {
    var before, after, p0 := prefixes[..n], prefixes[..n + 1], prefixes[n];
    assert after == before + [p0] && after[..n] == before;
    var byPrefix' := byPrefix[p0 := (if p0 in byPrefix then byPrefix[p0] else []) + [n]];
    forall p | p in byPrefix' ensures byPrefix'[p] == Members(after, p) {
      assert Members(after, p) == Members(before, p) + if p == p0 then [n] else [];
      if p !in byPrefix {
        NoMember(before, p);
      }
    }
  }

  lemma {:induction false} NoMember(prefixes: seq<string>, p: string)
    requires p !in prefixes
    ensures Members(prefixes, p) == []
  {
    if prefixes != [] {
      NoMember(prefixes[..|prefixes| - 1], p);
    }
  }

  /** The rows of a table. */
  function Rows<T>(prefixes: seq<string>, prefs: seq<T>): (rows: seq<(string, T)>)
    requires |prefixes| == |prefs|
    ensures |rows| == |prefs| && forall i :: 0 <= i < |rows| ==> rows[i] == (prefixes[i], prefs[i])
  {
    seq(|prefixes|, i requires 0 <= i < |prefixes| => (prefixes[i], prefs[i]))
  }

  /** However the rows are shuffled or repeated, the winner of a prefix carries the same preference. */
  lemma OrderIndependent<T(!new)>(more: (T, T) -> bool, prefixes: seq<string>, prefs: seq<T>, i: nat,
                                  prefixes': seq<string>, prefs': seq<T>, i': nat)
    requires StrictTotalOrder(more) && i < |prefixes| == |prefs| && i' < |prefixes'| == |prefs'|
    requires (forall row :: row in Rows(prefixes, prefs) <==> row in Rows(prefixes', prefs'))
    requires prefixes[i] == prefixes'[i']
    requires WinsPrefix(more, prefixes, prefs, i) && WinsPrefix(more, prefixes', prefs', i')
    ensures prefs[i] == prefs'[i']
  {
    var rows, rows' := Rows(prefixes, prefs), Rows(prefixes', prefs');
    assert rows[i] in rows && rows'[i'] in rows';
    var k' :| 0 <= k' < |rows'| && rows'[k'] == rows[i];
    var k :| 0 <= k < |rows| && rows[k] == rows'[i'];
    assert !more(prefs'[k'], prefs'[i']) && !more(prefs[k], prefs[i]);
  }

  // ---- Flags ----

  /** Only the winner of a group stays marked; rows outside the group keep their flag. */
  function Marked(flags: seq<bool>, group: seq<nat>, best: nat): (marked: seq<bool>)
    ensures |marked| == |flags|
    ensures forall i :: 0 <= i < |flags| ==> marked[i] == if i in group then i == best else flags[i]
  {
    seq(|flags|, i requires 0 <= i < |flags| => if i in group then i == best else flags[i])
  }

  lemma MarkSingle<T>(more: (T, T) -> bool, prefs: seq<T>, flags: seq<bool>, group: seq<nat>)
    requires |group| == 1 && Within(group, |flags|) && |prefs| == |flags|
    ensures Marked(flags, group, BestAmong(more, prefs, group)) == flags[group[0] := true]
  {
    assert group == [group[0]];
  }

  lemma MarkNext(flags: seq<bool>, group: seq<nat>, best: nat, n: nat)
    requires n < |group| && Within(group, |flags|)
    ensures Marked(flags, group[..n + 1], best) == Marked(flags, group[..n], best)[group[n] := group[n] == best]
  {
    assert group[..n + 1] == group[..n] + [group[n]];
  }

  /** The groups that are no longer pending carry their final flags. */
  ghost predicate Settled<T>(more: (T, T) -> bool, prefixes: seq<string>, prefs: seq<T>, flags: seq<bool>,
                             pending: set<string>)
    requires |prefixes| == |prefs| == |flags|
  {
    forall i :: 0 <= i < |flags| && prefixes[i] !in pending ==>
      Members(prefixes, prefixes[i]) != [] && flags[i] == (i == BestAmong(more, prefs, Members(prefixes, prefixes[i])))
  }

  lemma NothingSettled<T>(more: (T, T) -> bool, prefixes: seq<string>, prefs: seq<T>, flags: seq<bool>,
                          byPrefix: map<string, seq<nat>>)
    requires |prefixes| == |prefs| == |flags| && Grouped(prefixes, byPrefix)
    ensures Settled(more, prefixes, prefs, flags, byPrefix.Keys)
  {
    assert forall i :: 0 <= i < |prefixes| ==> prefixes[i] in prefixes;
  }

  lemma PrefixHasMembers(prefixes: seq<string>, p: string)
    requires p in prefixes
    ensures Members(prefixes, p) != []
  {
    MembersAre(prefixes, p);
    var k :| 0 <= k < |prefixes| && prefixes[k] == p;
    assert k in Members(prefixes, p);
  }

  lemma SettleGroup<T>(more: (T, T) -> bool, prefixes: seq<string>, prefs: seq<T>, flags: seq<bool>,
                       pending: set<string>, p: string)
    requires |prefixes| == |prefs| == |flags| && p in prefixes && Settled(more, prefixes, prefs, flags, pending)
    ensures Members(prefixes, p) != []
    ensures var group := Members(prefixes, p);
            Settled(more, prefixes, prefs, Marked(flags, group, BestAmong(more, prefs, group)), pending - {p})
  {
    PrefixHasMembers(prefixes, p);
    MembersAre(prefixes, p);
    var group := Members(prefixes, p);
    var best := BestAmong(more, prefs, group);
    var marked := Marked(flags, group, best);
    forall i | 0 <= i < |flags| && prefixes[i] !in pending - {p}
      ensures Members(prefixes, prefixes[i]) != []
      ensures marked[i] == (i == BestAmong(more, prefs, Members(prefixes, prefixes[i])))
    {
      assert i in group <==> prefixes[i] == p;
    }
  }

  /** When no group is pending, a row is marked exactly when it wins its prefix. */
  lemma SettledWins<T(!new)>(more: (T, T) -> bool, prefixes: seq<string>, prefs: seq<T>, flags: seq<bool>)
    requires StrictTotalOrder(more) && |prefixes| == |prefs| == |flags| && Settled(more, prefixes, prefs, flags, {})
    ensures forall i :: 0 <= i < |flags| ==> (flags[i] <==> WinsPrefix(more, prefixes, prefs, i))
  {
    forall i | 0 <= i < |flags| ensures flags[i] <==> WinsPrefix(more, prefixes, prefs, i) {
      WinnerOfPrefix(more, prefixes, prefs, i);
    }
  }
}
