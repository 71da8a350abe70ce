/** What the entries of the query store show over whole runs, told from the events alone. */
module QueryStories {
  import opened Options
  import opened QueryEntries
  import opened QueryWakeups

  /** What was done to an entry since it was made: the result last set, the partials offered since, the lines and
      whether the output was completed. */
  datatype Story = Story(base: Option<QueryResult>, partials: seq<QueryResult>, lines: seq<string>, complete: bool,
                         since: int)

  /** The entry shows its story. */
  predicate Tells(story: Story, v: EntryValue) {
    && v.lines == story.lines && v.outputComplete == story.complete && v.createdAt == story.since
    && v.result == if story.base.None? then None else Some(MergeAll(story.base.value, story.partials))
  }

  lemma OnePartialMore(base: QueryResult, partials: seq<QueryResult>, partial: QueryResult)
    ensures MergeAll(base, partials + [partial]) == Merge(MergeAll(base, partials), partial)
  {
    assert (partials + [partial])[..|partials|] == partials;
  }

  /** A query that has just been started: running, and nothing else. */
  function Started(now: int): Story {
    Story(Some(QueryResult(Running, "", None, [], [], "", [], [], 0)), [], [], false, now)
  }

  /** What a write does to the story of an id. */
  function Retold(story: Option<Story>, w: Write, id: string): Option<Story> {
    match w
    case SetRunning(x, now) => if x == id then Some(Started(now)) else story
    case AppendLine(x, line) =>
      if x == id && story.Some? then Some(story.value.(lines := story.value.lines + [line])) else story
    case MergePartial(x, partial) =>
      if x == id && story.Some? then Some(story.value.(partials := story.value.partials + [partial])) else story
    case MarkOutputComplete(x) => if x == id && story.Some? then Some(story.value.(complete := true)) else story
    case Set(x, result, now) =>
      if x != id then story
      else if story.None? then Some(Story(result, [], [], false, now))
      else Some(story.value.(base := result, partials := []))
    case Delete(x) => if x == id then None else story
    case Cleanup(now) => if story.Some? && now - story.value.since > EXPIRY then None else story
  }

  function StoryOf(events: seq<Event>, id: string): Option<Story> {
    if events == [] then None
    else
      var before, last := StoryOf(events[..|events| - 1], id), events[|events| - 1];
      if last.Does? then Retold(before, last.write, id) else before
  }

  /** The id has an entry exactly while it has a story, and the entry shows it. */
  predicate Matched(s: Shelf, id: string, story: Option<Story>)
    requires Placed(s)
  {
    s.expiry == EXPIRY && (id in s.results <==> story.Some?) && (story.Some? ==> Tells(story.value, ValueAt(s, id)))
  }

  lemma PartialTells(v: EntryValue, story: Story, partial: QueryResult)
    requires Tells(story, v)
    ensures Tells(story.(partials := story.partials + [partial]), WithPartial(v, partial))
  {
    if story.base.Some? {
      OnePartialMore(story.base.value, story.partials, partial);
    }
  }

  lemma WriteTells(s: Shelf, w: Write, id: string, story: Option<Story>)
    requires Placed(s) && Matched(s, id, story)
    ensures Placed(Written(s, w)) && Matched(Written(s, w), id, Retold(story, w, id))
  {
    WriteKeepsPlaced(s, w);
    if w.MergePartial? && story.Some? {
      PartialTells(ValueAt(s, id), story.value, w.partial);
    }
  }

  /** Signals and readers touch nothing but tokens. */
  lemma TokensTell(s: System, e: Event, id: string, story: Option<Story>)
    requires Placed(s.shelf) && Enabled(s, e) && !e.Does? && Matched(s.shelf, id, story)
    ensures Placed(Next(s, e).shelf) && Matched(Next(s, e).shelf, id, story)
  {
  }

  /** Over every run an id has an entry exactly while it has a story, and the entry shows it: the lines appended since
      it was made, in order, the completion, and the result last set with every partial since merged into it. */
  lemma {:induction false} EntriesTell(events: seq<Event>, s: System, id: string)
    requires Run(events) == Some(s)
    ensures Matched(s.shelf, id, StoryOf(events, id))
  {
    if events != [] {
      var front, last := events[..|events| - 1], events[|events| - 1];
      EntriesTell(front, Run(front).value, id);
      if last.Does? {
        WriteTells(Run(front).value.shelf, last.write, id, StoryOf(front, id));
      } else {
        TokensTell(Run(front).value, last, id, StoryOf(front, id));
      }
    }
  }
}
