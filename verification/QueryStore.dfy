/** The store of running and finished queries. Each operation is given as it runs without interference:
    its write, then its signal; QueryWakeups lets other steps fall in between. */
module QueryStoring {

  import opened Options
  import opened QueryEntries

  class Entry {
    var result: Option<QueryResult>
    var lines: seq<string>
    var outputComplete: bool
    var token: bool
    const createdAt: int

    ghost function Value(): EntryValue
      reads this
    {
      EntryValue(result, lines, outputComplete, token, createdAt)
    }

    constructor (result: Option<QueryResult>, now: int)
      ensures Value() == Fresh(result, now)
    {
      this.result, lines, outputComplete, token, createdAt := result, [], false, false, now;
    }
  }

  class Store {
    var results: map<string, Entry>
    const expiry: int

    /** The entry of an id: what its operations may change. */
    ghost function At(id: string): set<object>
      reads this
    {
      if id in results then {results[id]} else {}
    }

    /** No two ids share an entry. */
    ghost predicate Valid()
      reads this
    {
      forall a, b :: a in results && b in results && results[a] == results[b] ==> a == b
    }

    /** Every other id keeps its entry, and the entry what it holds. */
    twostate predicate OthersStay(id: string)
      reads this, set x | x in results :: results[x]
    {
      forall x :: x != id ==>
        (x in results <==> x in old(results)) &&
        (x in results ==> results[x] == old(results[x]) && results[x].Value() == old(results[x].Value()))
    }

    constructor (expiry: int)
      ensures Valid()
      ensures results == map[] && this.expiry == expiry
    {
      results, this.expiry := map[], expiry;
    }

    method SetRunning(id: string, now: int)
      requires Valid()
      modifies this
      ensures Valid() && OthersStay(id)
      ensures id in results && fresh(results[id]) && results == old(results)[id := results[id]]
      ensures results[id].Value() == Fresh(Some(BLANK), now)
    {
      var e := new Entry(Some(BLANK), now);
      results := results[id := e];
    }

    /** Puts the one token into the channel unless it is already there. */
    method Signal(id: string)
      requires Valid()
      modifies At(id)
      ensures Valid() && OthersStay(id)
      ensures id in results ==> results[id].Value() == old(results[id].Value()).(token := true)
    {
      if id in results {
        results[id].token := true;
      }
    }

    method AppendLine(id: string, line: string)
      requires Valid()
      modifies At(id)
      ensures Valid() && OthersStay(id)
      ensures id in results ==> results[id].Value() == WithLine(old(results[id].Value()), line).(token := true)
    {
      if id in results {
        var e := results[id];
        e.lines := e.lines + [line];
        Signal(id);
      }
    }

    method GetLines(id: string) returns (lines: seq<string>, ok: bool)
      ensures ok == (id in results) && lines == if ok then results[id].lines else []
    {
      if id !in results {
        return [], false;
      }
      return results[id].lines, true;
    }

    method MergePartial(id: string, partial: Option<QueryResult>)
      requires Valid()
      modifies At(id)
      ensures Valid() && OthersStay(id)
      ensures id in results && partial.Some? ==>
        var e := old(results[id].Value());
        results[id].Value() == WithPartial(e, partial.value).(token := e.token || Announced(e))
      ensures partial.None? && id in results ==> results[id].Value() == old(results[id].Value())
    {
      if partial.None? || id !in results || results[id].result.None? {
        return;
      }
      var e := results[id];
      MergeASPathInto(e, partial.value);
      if e.result.value.status != Running {
        return;
      }
      if partial.value.parsed.Some? {
        e.result := Some(e.result.value.(parsed := partial.value.parsed));
      }
      if partial.value.raw != "" {
        e.result := Some(e.result.value.(raw := partial.value.raw));
      }
      if partial.value.rules != [] {
        e.result := Some(e.result.value.(rules := partial.value.rules));
      }
      Signal(id);
    }

    method MergeASPathInto(e: Entry, partial: QueryResult)
      requires e.result.Some?
      modifies e
      ensures e.Value() == old(e.Value()).(result := Some(MergeASPath(old(e.result.value), partial)))
    {
      if partial.asPath != [] {
        e.result := Some(e.result.value.(asPath := partial.asPath));
      }
      if partial.asPathPrefix != "" {
        e.result := Some(e.result.value.(asPathPrefix := partial.asPathPrefix));
      }
      if partial.asPathEnriched != [] {
        e.result := Some(e.result.value.(asPathEnriched := partial.asPathEnriched));
      }
      if partial.asPathNodes != [] {
        e.result := Some(e.result.value.(asPathNodes := partial.asPathNodes));
      }
    }

    method MarkOutputComplete(id: string)
      requires Valid()
      modifies At(id)
      ensures Valid() && OthersStay(id)
      ensures id in results ==> results[id].Value() == old(results[id].Value()).(outputComplete := true, token := true)
    {
      if id in results {
        results[id].outputComplete := true;
      }
      Signal(id);
    }

    method IsOutputComplete(id: string) returns (complete: bool)
      ensures complete <==> id in results && results[id].outputComplete
    {
      complete := id in results && results[id].outputComplete;
    }

    method Set(id: string, result: Option<QueryResult>, now: int)
      requires Valid()
      modifies this, At(id)
      ensures Valid() && OthersStay(id)
      ensures id in results
      ensures id in old(results) ==>
        results == old(results) && results[id].Value() == old(results[id].Value()).(result := result, token := true)
      ensures id !in old(results) ==>
        fresh(results[id]) && results == old(results)[id := results[id]] &&
          results[id].Value() == Fresh(result, now).(token := true)
    {
      if id in results {
        results[id].result := result;
      } else {
        var e := new Entry(result, now);
        results := results[id := e];
      }
      Signal(id);
    }

    method Get(id: string) returns (result: Option<QueryResult>, ok: bool)
      ensures ok == (id in results) && result == if ok then results[id].result else None
    {
      if id !in results {
        return None, false;
      }
      return results[id].result, true;
    }

    method Delete(id: string)
      requires Valid()
      modifies this
      ensures Valid() && OthersStay(id)
      ensures results == old(results) - {id}
    {
      results := results - {id};
    }

    /** Whether the entry of an id outlives a cleanup at `now`. */
    ghost predicate Stays(all: map<string, Entry>, id: string, now: int)
      requires id in all
      reads all[id]
    {
      !Expired(all[id].Value(), now, expiry)
    }

    method CleanupTick(now: int)
      requires Valid()
      modifies this
      ensures Valid()
      ensures forall id :: id in results <==> id in old(results) && Stays(old(results), id, now)
      ensures forall id :: id in results ==> results[id] == old(results)[id]
    {
      var rest := results.Keys;
      while rest != {}
        invariant rest <= results.Keys <= old(results).Keys
        invariant forall id :: id in results ==> results[id] == old(results)[id]
        invariant forall id :: id in old(results) && id !in rest ==> (id in results <==> Stays(old(results), id, now))
      {
        var id :| id in rest;
        rest := rest - {id};
        if now - results[id].createdAt > expiry {
          results := results - {id};
        }
      }
    }
  }
}
