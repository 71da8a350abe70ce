/** The results of one query and the operations on them: the value one store entry goes through. What the
    store never looks inside (a parsed answer, a rule, an enriched hop) is a number here. */
module QueryEntries {

  import opened Options

  datatype Status = Pending | Running | Done | Error

  datatype QueryResult = QueryResult(status: Status, raw: string, parsed: Option<int>, rules: seq<int>,
                                     asPath: seq<int>, asPathPrefix: string, asPathEnriched: seq<int>,
                                     asPathNodes: seq<int>, rest: int)

  datatype EntryValue = EntryValue(result: Option<QueryResult>, lines: seq<string>, outputComplete: bool,
                                   token: bool, createdAt: int)

  const BLANK := QueryResult(Running, "", None, [], [], "", [], [], 0)

  function Keep<T(==)>(current: seq<T>, offered: seq<T>): seq<T> {
    if offered != [] then offered else current
  }

  function MergeASPath(dest: QueryResult, partial: QueryResult): QueryResult {
    dest.(asPath := Keep(dest.asPath, partial.asPath),
          asPathPrefix := Keep(dest.asPathPrefix, partial.asPathPrefix),
          asPathEnriched := Keep(dest.asPathEnriched, partial.asPathEnriched),
          asPathNodes := Keep(dest.asPathNodes, partial.asPathNodes))
  }

  /** A partial result merged into a stored one: the AS-path fields always, the others only while the query runs. */
  function Merge(dest: QueryResult, partial: QueryResult): QueryResult {
    var merged := MergeASPath(dest, partial);
    if merged.status != Running then merged
    else
      merged.(parsed := if partial.parsed.Some? then partial.parsed else merged.parsed,
              raw := Keep(merged.raw, partial.raw),
              rules := Keep(merged.rules, partial.rules))
  }

  function MergeAll(dest: QueryResult, partials: seq<QueryResult>): QueryResult {
    if partials == [] then dest
    else Merge(MergeAll(dest, partials[..|partials| - 1]), partials[|partials| - 1])
  }

  // ---- What each operation does to an entry ----

  function Fresh(result: Option<QueryResult>, now: int): EntryValue {
    EntryValue(result, [], false, false, now)
  }

  function WithLine(e: EntryValue, line: string): EntryValue {
    e.(lines := e.lines + [line])
  }

  function WithPartial(e: EntryValue, partial: QueryResult): EntryValue {
    if e.result.None? then e else e.(result := Some(Merge(e.result.value, partial)))
  }

  /** A merge is announced to readers only while the query runs. */
  predicate Announced(e: EntryValue) {
    e.result.Some? && e.result.value.status == Running
  }

  predicate Expired(e: EntryValue, now: int, expiry: int) {
    now - e.createdAt > expiry
  }

  // ---- Merging over time ----

  function PathOf(p: QueryResult): seq<int> { p.asPath }

  function PrefixOf(p: QueryResult): string { p.asPathPrefix }

  function EnrichedOf(p: QueryResult): seq<int> { p.asPathEnriched }

  function NodesOf(p: QueryResult): seq<int> { p.asPathNodes }

  /** The last of the partials' fields that holds anything, or what was there before. */
  function Latest<T(==)>(current: seq<T>, partials: seq<QueryResult>, field: QueryResult -> seq<T>): seq<T> {
    if partials == [] then current
    else
      var last := field(partials[|partials| - 1]);
      if last != [] then last else Latest(current, partials[..|partials| - 1], field)
  }

  /** Whatever partials arrive after a query has stopped running, its status, answer, raw output, rules and
      remaining fields stay as they were; an AS-path field holds the last non-empty one offered, so none is
      ever emptied. */
  lemma {:induction false} SettledMerges(dest: QueryResult, partials: seq<QueryResult>)
    requires dest.status != Running
    ensures MergeAll(dest, partials) ==
      dest.(asPath := Latest(dest.asPath, partials, PathOf),
            asPathPrefix := Latest(dest.asPathPrefix, partials, PrefixOf),
            asPathEnriched := Latest(dest.asPathEnriched, partials, EnrichedOf),
            asPathNodes := Latest(dest.asPathNodes, partials, NodesOf))
  {
    if partials != [] {
      SettledMerges(dest, partials[..|partials| - 1]);
    }
  }

  /** Nothing a reader could already see is ever emptied by an offer. */
  lemma {:induction false} LatestKeeps<T>(current: seq<T>, partials: seq<QueryResult>, field: QueryResult -> seq<T>)
    requires current != []
    ensures Latest(current, partials, field) != []
  {
    if partials != [] {
      LatestKeeps(current, partials[..|partials| - 1], field);
    }
  }

  function RawOf(p: QueryResult): string { p.raw }

  function RulesOf(p: QueryResult): seq<int> { p.rules }

  /** The last answer offered, or what was there before. */
  function LatestAnswer(current: Option<int>, partials: seq<QueryResult>): Option<int> {
    if partials == [] then current
    else
      var last := partials[|partials| - 1].parsed;
      if last.Some? then last else LatestAnswer(current, partials[..|partials| - 1])
  }

  /** While the query runs it keeps running, and the answer, the raw output, the rules and the AS-path fields
      each hold the last thing offered; nothing else changes. */
  lemma {:induction false} RunningMerges(dest: QueryResult, partials: seq<QueryResult>)
    requires dest.status == Running
    ensures MergeAll(dest, partials) ==
      dest.(parsed := LatestAnswer(dest.parsed, partials),
            raw := Latest(dest.raw, partials, RawOf),
            rules := Latest(dest.rules, partials, RulesOf),
            asPath := Latest(dest.asPath, partials, PathOf),
            asPathPrefix := Latest(dest.asPathPrefix, partials, PrefixOf),
            asPathEnriched := Latest(dest.asPathEnriched, partials, EnrichedOf),
            asPathNodes := Latest(dest.asPathNodes, partials, NodesOf))
  {
    if partials != [] {
      RunningMerges(dest, partials[..|partials| - 1]);
    }
  }
}
