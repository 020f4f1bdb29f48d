/**
 * WebCrawler: crawl(seed) records the seed and schedules it; each scheduled page is
 * fetched, its links are resolved against the seed and every new path is recorded
 * and scheduled while fewer than 50 are recorded, and the page's words are added to
 * the index. Fetching, HTML link listing and cleaning, and URL resolution are not
 * modelled: a page arrives as its links and words, and resolution as a function.
 */
module WebCrawler {
  import opened Options
  import opened Strings
  import opened InvertedIndex

  /** No link is recorded once 50 are. */
  const MaxLinks: nat := 50

  /** new URL(base, link).getPath(): a MalformedURLException, a null path, or a path. */
  datatype Resolved = Malformed | NoPath | PathOf(path: string)

  /** A Minion: the link to fetch and the base it is resolved against. */
  datatype Task = Task(link: string, base: string)

  /** The recorded links and the tasks one pass of the loop handed to the work queue;
      ok is false when a MalformedURLException ended the loop. */
  datatype Schedule = Schedule(links: set<string>, tasks: seq<Task>, ok: bool)

  /** crawl(seed) as written: the links set holds the whole seed URL, and one task
      fetches the seed against itself. */
  function Seed(seed: string): Schedule
  {
    Schedule({seed}, [Task(seed, seed)], true)
  }

  /** crawl(seed) recording the seed the way every other page is recorded, by the path
      of its URL, so that the seed counts as visited. */
  function SeedByPath(seed: string, seedPath: string): Schedule
  {
    Schedule({seedPath}, [Task(seed, seed)], true)
  }

  /** The loop over the links found on a page. */
  function ScheduleLinks(links: set<string>, found: seq<string>, base: string, resolve: string -> Resolved): Schedule
    decreases |found|
  {
    if |found| == 0 then Schedule(links, [], true)
    else
      match resolve(found[0])
      case Malformed => Schedule(links, [], false)
      case NoPath => ScheduleLinks(links, found[1..], base, resolve)
      case PathOf(p) =>
        if p !in links && |links| < MaxLinks then
          var rest := ScheduleLinks(links + {p}, found[1..], base, resolve);
          Schedule(rest.links, [Task(p, base)] + rest.tasks, rest.ok)
        else ScheduleLinks(links, found[1..], base, resolve)
  }

  /** The loop only adds links, one per task, and never past 50. */
  lemma {:induction false} ScheduleGrows(links: set<string>, found: seq<string>, base: string, resolve: string -> Resolved)
    ensures links <= ScheduleLinks(links, found, base, resolve).links
    ensures |ScheduleLinks(links, found, base, resolve).links| == |links| + |ScheduleLinks(links, found, base, resolve).tasks|
    ensures |links| <= MaxLinks ==> |ScheduleLinks(links, found, base, resolve).links| <= MaxLinks
    decreases |found|
  {
    if |found| > 0 {
      ScheduleGrows(links, found[1..], base, resolve);
      if resolve(found[0]).PathOf? {
        var p := resolve(found[0]).path;
        if p !in links && |links| < MaxLinks {
          ScheduleGrows(links + {p}, found[1..], base, resolve);
        }
      }
    }
  }

  /** Every task is resolved against base and is for a link that is not in before and
      is in after. */
  ghost predicate TasksFresh(ts: seq<Task>, base: string, before: set<string>, after: set<string>)
  {
    forall i :: 0 <= i < |ts| ==> ts[i].base == base && ts[i].link !in before && ts[i].link in after
  }

  /** No link has two tasks. */
  ghost predicate TasksDistinct(ts: seq<Task>)
  {
    forall i, j :: 0 <= i < j < |ts| ==> ts[i].link != ts[j].link
  }

  /** Some task is for link k. */
  ghost predicate Scheduled(ts: seq<Task>, k: string)
  {
    exists i :: 0 <= i < |ts| && ts[i].link == k
  }

  lemma TasksCons(p: string, base: string, rest: seq<Task>, links: set<string>, after: set<string>)
    requires TasksFresh(rest, base, links + {p}, after) && TasksDistinct(rest)
    requires p !in links && p in after
    ensures TasksFresh([Task(p, base)] + rest, base, links, after)
    ensures TasksDistinct([Task(p, base)] + rest)
  {
    var ts := [Task(p, base)] + rest;
    assert forall i :: 1 <= i < |ts| ==> ts[i] == rest[i - 1];
  }

  lemma ScheduledCons(t: Task, rest: seq<Task>, k: string)
    requires t.link == k || Scheduled(rest, k)
    ensures Scheduled([t] + rest, k)
  {
    var ts := [t] + rest;
    if t.link != k {
      var i :| 0 <= i < |rest| && rest[i].link == k;
      assert ts[i + 1].link == k;
    } else {
      assert ts[0].link == k;
    }
  }

  /** Every task is for a link that was new, is recorded now, and is resolved against
      the page's base; no link is scheduled twice. */
  lemma {:induction false} ScheduleTasks(links: set<string>, found: seq<string>, base: string, resolve: string -> Resolved)
    ensures TasksFresh(ScheduleLinks(links, found, base, resolve).tasks, base, links, ScheduleLinks(links, found, base, resolve).links)
    ensures TasksDistinct(ScheduleLinks(links, found, base, resolve).tasks)
    decreases |found|
  {
    if |found| > 0 {
      ScheduleTasks(links, found[1..], base, resolve);
      if resolve(found[0]).PathOf? {
        var p := resolve(found[0]).path;
        if p !in links && |links| < MaxLinks {
          var rest := ScheduleLinks(links + {p}, found[1..], base, resolve);
          ScheduleTasks(links + {p}, found[1..], base, resolve);
          ScheduleGrows(links + {p}, found[1..], base, resolve);
          TasksCons(p, base, rest.tasks, links, rest.links);
        }
      }
    }
  }

  /** A link is recorded only if it was there before or a task was made for it. */
  lemma {:induction false} ScheduleRecordsTasks(links: set<string>, found: seq<string>, base: string, resolve: string -> Resolved, k: string)
    requires k in ScheduleLinks(links, found, base, resolve).links
    ensures k in links || Scheduled(ScheduleLinks(links, found, base, resolve).tasks, k)
    decreases |found|
  {
    if |found| > 0 && !resolve(found[0]).Malformed? {
      var r := resolve(found[0]);
      if r.PathOf? && r.path !in links && |links| < MaxLinks {
        var rest := ScheduleLinks(links + {r.path}, found[1..], base, resolve);
        if k != r.path {
          ScheduleRecordsTasks(links + {r.path}, found[1..], base, resolve, k);
        }
        if k !in links {
          ScheduledCons(Task(r.path, base), rest.tasks, k);
        }
      } else {
        ScheduleRecordsTasks(links, found[1..], base, resolve, k);
      }
    }
  }

  /** Every task comes from a link found on the page. */
  lemma {:induction false} ScheduleSources(links: set<string>, found: seq<string>, base: string, resolve: string -> Resolved, i: nat)
    requires i < |ScheduleLinks(links, found, base, resolve).tasks|
    ensures exists j :: 0 <= j < |found| && resolve(found[j]) == PathOf(ScheduleLinks(links, found, base, resolve).tasks[i].link)
    decreases |found|
  {
    var p := resolve(found[0]);
    if p.PathOf? && p.path !in links && |links| < MaxLinks {
      if i > 0 {
        ScheduleSources(links + {p.path}, found[1..], base, resolve, i - 1);
        var j :| 0 <= j < |found| - 1 && resolve(found[1..][j]) == PathOf(ScheduleLinks(links + {p.path}, found[1..], base, resolve).tasks[i - 1].link);
        assert found[1..][j] == found[j + 1];
      } else {
        assert resolve(found[0]) == PathOf(ScheduleLinks(links, found, base, resolve).tasks[0].link);
      }
    } else {
      ScheduleSources(links, found[1..], base, resolve, i);
      var j :| 0 <= j < |found| - 1 && resolve(found[1..][j]) == PathOf(ScheduleLinks(links, found[1..], base, resolve).tasks[i].link);
      assert found[1..][j] == found[j + 1];
    }
  }

  /** The loop ends early exactly when some found link does not resolve. */
  lemma {:induction false} ScheduleOk(links: set<string>, found: seq<string>, base: string, resolve: string -> Resolved)
    ensures ScheduleLinks(links, found, base, resolve).ok <==> forall j :: 0 <= j < |found| ==> !resolve(found[j]).Malformed?
    decreases |found|
  {
    if |found| > 0 {
      ScheduleOk(links, found[1..], base, resolve);
      var p := resolve(found[0]);
      if p.PathOf? && p.path !in links && |links| < MaxLinks {
        ScheduleOk(links + {p.path}, found[1..], base, resolve);
      }
      assert forall j :: 1 <= j < |found| ==> found[j] == found[1..][j - 1];
    }
  }

  /** When the loop runs to the end, every path a found link resolves to is recorded,
      unless 50 links are recorded. */
  lemma {:induction false} ScheduleComplete(links: set<string>, found: seq<string>, base: string, resolve: string -> Resolved, j: nat)
    requires ScheduleLinks(links, found, base, resolve).ok
    requires j < |found| && resolve(found[j]).PathOf?
    ensures resolve(found[j]).path in ScheduleLinks(links, found, base, resolve).links
         || |ScheduleLinks(links, found, base, resolve).links| >= MaxLinks
    decreases |found|
  {
    var p := resolve(found[0]);
    var next := if p.PathOf? && p.path !in links && |links| < MaxLinks then links + {p.path} else links;
    assert ScheduleLinks(links, found, base, resolve).links == ScheduleLinks(next, found[1..], base, resolve).links;
    ScheduleGrows(next, found[1..], base, resolve);
    if j > 0 {
      assert found[1..][j - 1] == found[j];
      ScheduleComplete(next, found[1..], base, resolve, j - 1);
    } else if p.path !in next {
      assert |links| >= MaxLinks;
      ScheduleGrows(links, found[1..], base, resolve);
      assert |links| <= |ScheduleLinks(next, found[1..], base, resolve).links| by {
        LemmaSubsetSize(links, ScheduleLinks(next, found[1..], base, resolve).links);
      }
    }
  }

  /** The links set mixes the seed's full URL with paths: a seed page that links to
      itself has its own path scheduled, so it is fetched and indexed a second time. */
  lemma SeedRevisited()
    ensures ScheduleLinks(Seed("http://h/a.html").links, ["a.html"], "http://h/a.html", _ => PathOf("/a.html")).tasks
         == [Task("/a.html", "http://h/a.html")]
  {
    var links := Seed("http://h/a.html").links;
    assert "/a.html" !in links && |links| == 1;
  }

  /** With the seed recorded by its path, no page found from it schedules the seed again,
      whatever links the page holds. */
  lemma SeedByPathNotRevisited(seed: string, seedPath: string, found: seq<string>, resolve: string -> Resolved)
    ensures forall i :: 0 <= i < |ScheduleLinks(SeedByPath(seed, seedPath).links, found, seed, resolve).tasks| ==>
      ScheduleLinks(SeedByPath(seed, seedPath).links, found, seed, resolve).tasks[i].link != seedPath
  {
    ScheduleTasks(SeedByPath(seed, seedPath).links, found, seed, resolve);
  }

  lemma LemmaSubsetSize(a: set<string>, b: set<string>)
    requires a <= b
    ensures |a| <= |b|
  {
    assert b == a + (b - a);
  }

  // ---------------------------------------------------------------------------
  // Indexing a page

  /** The private index addWordsToIndex fills: word i at position i + 1. */
  function LocalIndex(words: seq<string>, url: string): Index
  {
    AddTokens(map[], words, url, 0)
  }

  /** addWordsToIndex: fill a private index, then merge it in with addAll. */
  function AddWordsToIndex(idx: Index, words: seq<string>, url: string): Index
  {
    AddAll(idx, LocalIndex(words, url))
  }

  /** Building a private index and merging it gives what storeInfo gives on the shared
      index: the page's words at positions 1, 2, ... under its URL. */
  lemma AddWordsToIndexIsStoreInfo(idx: Index, words: seq<string>, url: string)
    requires WellFormed(idx)
    ensures AddWordsToIndex(idx, words, url) == StoreInfo(idx, words, url)
    ensures WellFormed(AddWordsToIndex(idx, words, url))
  {
    MergePrivateIndex(idx, words, url, 0);
    StoreInfoWellFormed(idx, words, url);
  }

  /** A fetched page, as fetch, listLinks and parseWords present it. */
  datatype Page = Page(links: seq<string>, words: seq<string>)

  /** The crawler's shared state after handling some tasks. */
  datatype State = State(links: set<string>, queued: seq<Task>, index: Index)

  /** parse(url, base) for one task: absolute is new URL(base, url) (None when it is
      malformed), page is what fetching it returns and resolve resolves the page's
      links against the base. */
  function ParseTask(st: State, absolute: Option<string>, page: Page, base: string, resolve: string -> Resolved): State
  {
    match absolute
    case None => st
    case Some(url) =>
      var s := ScheduleLinks(st.links, page.links, base, resolve);
      var index := if s.ok then AddWordsToIndex(st.index, page.words, url) else st.index;
      State(s.links, st.queued + s.tasks, index)
  }

  /** A page is indexed exactly when its own URL and all its links resolve, and then as
      storeInfo would index it; otherwise the index is untouched. */
  lemma ParseTaskIndex(st: State, absolute: Option<string>, page: Page, base: string, resolve: string -> Resolved)
    requires WellFormed(st.index)
    ensures ParseTask(st, absolute, page, base, resolve).index ==
      if absolute.Some? && forall j :: 0 <= j < |page.links| ==> !resolve(page.links[j]).Malformed?
      then StoreInfo(st.index, page.words, absolute.value)
      else st.index
    ensures WellFormed(ParseTask(st, absolute, page, base, resolve).index)
  {
    if absolute.Some? {
      ScheduleOk(st.links, page.links, base, resolve);
      AddWordsToIndexIsStoreInfo(st.index, page.words, absolute.value);
    }
  }

  /** Handling a task never records more than 50 links when at most 50 were recorded,
      and every queued task is for a distinct recorded link. */
  lemma ParseTaskLinks(st: State, absolute: Option<string>, page: Page, base: string, resolve: string -> Resolved)
    requires |st.links| <= MaxLinks
    ensures st.links <= ParseTask(st, absolute, page, base, resolve).links
    ensures |ParseTask(st, absolute, page, base, resolve).links| <= MaxLinks
    ensures |ParseTask(st, absolute, page, base, resolve).links| - |st.links|
         == |ParseTask(st, absolute, page, base, resolve).queued| - |st.queued|
  {
    if absolute.Some? {
      ScheduleGrows(st.links, page.links, base, resolve);
    }
  }
}
