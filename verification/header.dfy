/**
 The file header that fences off entries of another payload version or capacity. The disk keeps
 synced contents and a list of writes that a crash may lose, keep or tear; `ClearIncompatibleMetadata`
 is the open protocol, and the runs below stop it at every point.
 */
module Header {
  import opened Layout
  import opened ShardLayout

  /** Payload version, and capacity in chunks. */
  datatype Format = Format(version: nat, chunks: nat)

  /** What a page holds: `Data(f)` is anything that a cache opened as `f` writes while it runs. */
  datatype Content = Zero | HeaderOf(format: Format) | Data(format: Format) | Torn

  datatype Operation = Write(page: nat, content: Content) | Truncate(pages: nat)

  datatype File = File(synced: map<nat, Content>, unsynced: seq<Operation>)

  predicate ValidFormat(f: Format) {
    f.chunks >= 2
  }

  function Synced(file: File, page: nat): Content {
    if page in file.synced then file.synced[page] else Zero
  }

  /** What a read finds: the last operation on the page wins. */
  function Latest(file: File, page: nat): Content
    decreases |file.unsynced|
  {
    if file.unsynced == [] then Synced(file, page)
    else
      var before := Before(file);
      match file.unsynced[|file.unsynced| - 1]
      case Write(p, content) => if p == page then content else Latest(before, page)
      case Truncate(pages) => if pages <= page then Zero else Latest(before, page)
  }

  /** The contents that an unsynced operation can leave in a page. */
  predicate Leaves(op: Operation, page: nat, content: Content) {
    match op
    case Write(p, c) => p == page && (content == c || content == Torn)
    case Truncate(pages) => pages <= page && content == Zero
  }

  /** The contents that a page can have after a crash. */
  predicate Possible(file: File, page: nat, content: Content) {
    content == Synced(file, page) || exists op :: op in file.unsynced && Leaves(op, page, content)
  }

  lemma {:induction false} LatestPossible(file: File, page: nat)
    ensures Possible(file, page, Latest(file, page))
    decreases |file.unsynced|
  {
    if file.unsynced != [] {
      var last := file.unsynced[|file.unsynced| - 1];
      var before := Before(file);
      assert last in file.unsynced;
      LatestPossible(before, page);
      assert Leaves(last, page, Latest(file, page)) || Latest(file, page) == Latest(before, page);
      if !Leaves(last, page, Latest(file, page)) && Latest(before, page) != Synced(file, page) {
        var op :| op in before.unsynced && Leaves(op, page, Latest(before, page));
        assert op in file.unsynced;
      }
    }
  }

  function Issue(file: File, op: Operation): File {
    file.(unsynced := file.unsynced + [op])
  }

  lemma IssuePossible(file: File, op: Operation, page: nat, content: Content)
    ensures Possible(Issue(file, op), page, content) <==> Possible(file, page, content) || Leaves(op, page, content)
    ensures Latest(Issue(file, op), page) ==
      match op
      case Write(p, c) => (if p == page then c else Latest(file, page))
      case Truncate(n) => (if n <= page then Zero else Latest(file, page))
  {
    var after := Issue(file, op);
    assert after.unsynced[..|file.unsynced|] == file.unsynced;
    assert File(file.synced, file.unsynced) == file;
    assert op in after.unsynced;
    assert forall o :: o in file.unsynced ==> o in after.unsynced;
    assert forall o :: o in after.unsynced ==> o in file.unsynced || o == op;
  }

  /** `after` is synced, and holds what reads of `file` find. */
  ghost predicate SyncedFrom(file: File, after: File) {
    after.unsynced == [] && forall p: nat :: Synced(after, p) == Latest(file, p)
  }

  function Before(file: File): File
    requires file.unsynced != []
  {
    File(file.synced, file.unsynced[..|file.unsynced| - 1])
  }

  function Perform(pages: map<nat, Content>, op: Operation): map<nat, Content> {
    match op
    case Write(p, content) => pages[p := content]
    case Truncate(n) => map p | p in pages && p < n :: pages[p]
  }

  function Flush(file: File): (after: File)
    ensures SyncedFrom(file, after)
    decreases |file.unsynced|
  {
    if file.unsynced == [] then file
    else File(Perform(Flush(Before(file)).synced, file.unsynced[|file.unsynced| - 1]), [])
  }

  /** What may be left after a crash: every page has one of its possible contents. */
  ghost predicate CrashedFrom(file: File, after: File) {
    after.unsynced == [] && forall p: nat :: Possible(file, p, Synced(after, p))
  }

  // ---------------------------------------------------------------- shard heads

  function HeadChunk(f: Format, shard: nat): nat
    requires ValidFormat(f)
  {
    ShardStart(f.chunks, ShardCount(f.chunks), shard)
  }

  /** Page `k` of the clearing pass, which zeroes each shard's first chunk in turn. */
  function ClearedPage(f: Format, k: nat): nat
    requires ValidFormat(f)
  {
    HeadChunk(f, k / PAGES_PER_CHUNK) * PAGES_PER_CHUNK + k % PAGES_PER_CHUNK
  }

  function ClearedPages(f: Format): nat
    requires ValidFormat(f)
  {
    ShardCount(f.chunks) * PAGES_PER_CHUNK
  }

  /** Page `p` lies in the first metadata chunk of a shard. */
  ghost predicate HeadPage(f: Format, p: nat)
    requires ValidFormat(f)
  {
    exists k: nat :: k < ClearedPages(f) && p == ClearedPage(f, k)
  }

  /** The cleared pages are exactly all pages of the shards' first chunks. */
  lemma HeadPagesAreHeads(f: Format, p: nat)
    requires ValidFormat(f)
    ensures HeadPage(f, p) <==>
      exists i: nat :: i < ShardCount(f.chunks) && p / PAGES_PER_CHUNK == HeadChunk(f, i)
  {
    if HeadPage(f, p) {
      var k: nat :| k < ClearedPages(f) && p == ClearedPage(f, k);
      assert p / PAGES_PER_CHUNK == HeadChunk(f, k / PAGES_PER_CHUNK);
    }
    if i: nat :| i < ShardCount(f.chunks) && p / PAGES_PER_CHUNK == HeadChunk(f, i) {
      var k := i * PAGES_PER_CHUNK + p % PAGES_PER_CHUNK;
      assert k / PAGES_PER_CHUNK == i && k % PAGES_PER_CHUNK == p % PAGES_PER_CHUNK;
      assert k < ClearedPages(f) && p == ClearedPage(f, k);
    }
  }

  /** The first shard starts in the second chunk whatever the capacity, and no head is in the header chunk. */
  lemma HeadsAfterHeader(f: Format, p: nat)
    requires ValidFormat(f)
    ensures HeadPage(f, PAGES_PER_CHUNK)
    ensures HeadPage(f, p) ==> p >= PAGES_PER_CHUNK
  {
    ShardsPartitionFile(f.chunks);
    assert ClearedPage(f, 0) == PAGES_PER_CHUNK;
    if HeadPage(f, p) {
      var k: nat :| k < ClearedPages(f) && p == ClearedPage(f, k);
      StartsIncrease(f.chunks, 0, k / PAGES_PER_CHUNK);
    }
  }

  // ---------------------------------------------------------------- the open protocol

  /** What was asked of the file, in order. */
  datatype Event = Issued(operation: Operation) | SyncedAll

  /** Zeroes for the pages of the shard heads from `k` on. */
  function Clears(f: Format, k: nat): seq<Event>
    requires ValidFormat(f)
    decreases ClearedPages(f) - k
  {
    if k >= ClearedPages(f) then [] else [Issued(Write(ClearedPage(f, k), Zero))] + Clears(f, k + 1)
  }

  /** All heads are zeroed and synced before the header is written, and the header is synced after. */
  function OpeningEvents(f: Format): seq<Event>
    requires ValidFormat(f)
  {
    Clears(f, 0) + [SyncedAll, Issued(Write(0, HeaderOf(f))), SyncedAll]
  }

  lemma EventsAppended(before: seq<Event>, f: Format)
    requires ValidFormat(f)
    ensures before + Clears(f, 0) + [SyncedAll] + [Issued(Write(0, HeaderOf(f)))] + [SyncedAll]
         == before + OpeningEvents(f)
  {
  }

  class DataFile {
    var file: File
    ghost var events: seq<Event>

    constructor (file: File)
      ensures this.file == file && events == []
    {
      this.file, events := file, [];
    }

    method WriteAt(page: nat, content: Content)
      modifies this
      ensures file == Issue(old(file), Write(page, content)) && events == old(events) + [Issued(Write(page, content))]
    {
      file, events := Issue(file, Write(page, content)), events + [Issued(Write(page, content))];
    }

    method SyncAll()
      modifies this
      ensures SyncedFrom(old(file), file) && events == old(events) + [SyncedAll]
    {
      file, events := Flush(file), events + [SyncedAll];
    }

    /** Issues zeroes for the first chunk of each shard, in turn. */
    method ClearHeads(f: Format)
      requires ValidFormat(f)
      modifies this
      ensures forall k: nat :: k < ClearedPages(f) ==> Latest(file, ClearedPage(f, k)) == Zero
      ensures forall p: nat :: Latest(file, p) == Latest(old(file), p) || (HeadPage(f, p) && Latest(file, p) == Zero)
      ensures events == old(events) + Clears(f, 0)
    {
      var k := 0;
      while k < ClearedPages(f)
        invariant k <= ClearedPages(f) && events + Clears(f, k) == old(events) + Clears(f, 0)
        invariant forall j: nat :: j < k ==> Latest(file, ClearedPage(f, j)) == Zero
        invariant forall p: nat ::
          Latest(file, p) == Latest(old(file), p) || (HeadPage(f, p) && Latest(file, p) == Zero)
      {
        ghost var before, earlier := file, events;
        WriteAt(ClearedPage(f, k), Zero);
        assert events + Clears(f, k + 1) == earlier + Clears(f, k);
        forall p: nat ensures Latest(file, p) == if p == ClearedPage(f, k) then Zero else Latest(before, p) {
          IssuePossible(before, Write(ClearedPage(f, k), Zero), p, Zero);
        }
        k := k + 1;
      }
      assert events + [] == events;
    }

    /** Leaves a matching file alone. Otherwise only the format's header and zeroed shard heads are new, all synced. */
    method ClearIncompatibleMetadata(f: Format) returns (matched: bool)
      requires ValidFormat(f)
      modifies this
      ensures matched == (Latest(old(file), 0) == HeaderOf(f)) && (matched ==> file == old(file))
      ensures !matched ==> file.unsynced == [] && Synced(file, 0) == HeaderOf(f)
      ensures !matched ==> forall p :: HeadPage(f, p) ==> Synced(file, p) == Zero
      ensures !matched ==> forall p: nat :: p > 0 && !HeadPage(f, p) ==> Synced(file, p) == Latest(old(file), p)
      ensures events == old(events) + if matched then [] else OpeningEvents(f)
    {
      matched := Latest(file, 0) == HeaderOf(f);
      if !matched {
        ClearHeads(f);
        SyncAll();
        ghost var cleared := file;
        WriteAt(0, HeaderOf(f));
        ghost var written := file;
        SyncAll();
        forall p: nat ensures Synced(file, p) == if p == 0 then HeaderOf(f) else Synced(cleared, p) {
          IssuePossible(cleared, Write(0, HeaderOf(f)), p, Zero);
        }
        forall p | HeadPage(f, p) ensures Synced(file, p) == Zero {
          HeadsAfterHeader(f, p);
        }
        EventsAppended(old(events), f);
      }
    }
  }

  // ---------------------------------------------------------------- runs

  datatype Step = Check | Clear(k: nat) | PublishHeader | SyncHeader
  datatype Phase = Closed | Opening(format: Format, step: Step) | Running(format: Format)

  datatype System = System(file: File, phase: Phase)

  /** `Stop` closes, fails or kills the process without a crash. `Sync` and `Crash` say what they leave. */
  datatype Action = Open(format: Format) | Advance | Sync(after: File) | Put(page: nat) | Stop | Crash(after: File)

  ghost predicate Enabled(y: System, a: Action) {
    match a
    case Open(f) => y.phase.Closed? && ValidFormat(f)
    case Advance =>
      && y.phase.Opening? && ValidFormat(y.phase.format) && !y.phase.step.SyncHeader?
      && (y.phase.step.Clear? ==> y.phase.step.k < ClearedPages(y.phase.format))
    case Sync(after) =>
      && y.phase.Opening? && ValidFormat(y.phase.format) && SyncedFrom(y.file, after)
      && (y.phase.step.SyncHeader? || y.phase.step == Clear(ClearedPages(y.phase.format)))
    case Put(p) => y.phase.Running? && PAGES_PER_CHUNK <= p < y.phase.format.chunks * PAGES_PER_CHUNK
    case Stop => true
    case Crash(after) => CrashedFrom(y.file, after)
  }

  function Apply(y: System, a: Action): System
    requires (a.Advance? || a.Sync?) ==> y.phase.Opening? && ValidFormat(y.phase.format)
    requires a.Put? ==> y.phase.Running?
  {
    match a
    case Open(f) => System(Issue(y.file, Truncate(f.chunks * PAGES_PER_CHUNK)), Opening(f, Check))
    case Advance =>
      var f := y.phase.format;
      (match y.phase.step
       case Check => y.(phase := if Latest(y.file, 0) == HeaderOf(f) then Running(f) else Opening(f, Clear(0)))
       case Clear(k) => System(Issue(y.file, Write(ClearedPage(f, k), Zero)), Opening(f, Clear(k + 1)))
       case PublishHeader => System(Issue(y.file, Write(0, HeaderOf(f))), Opening(f, SyncHeader))
       case SyncHeader => y)
    case Sync(after) =>
      var f := y.phase.format;
      System(after, if y.phase.step.SyncHeader? then Running(f) else Opening(f, PublishHeader))
    case Put(p) => y.(file := Issue(y.file, Write(p, Data(y.phase.format))))
    case Stop => y.(phase := Closed)
    case Crash(after) => System(after, Closed)
  }

  // ---------------------------------------------------------------- the fence

  ghost predicate Own(f: Format, content: Content) {
    content == Zero || content == Torn || content == Data(f)
  }

  /** If a header may survive, only its own format's pages may be in its shard heads. */
  ghost predicate Fenced(file: File) {
    forall f, p, c ::
      ValidFormat(f) && Possible(file, 0, HeaderOf(f)) && HeadPage(f, p) && Possible(file, p, c) ==> Own(f, c)
  }

  /** No other header can be left by a crash. */
  ghost predicate OnlyHeader(file: File, f: Format) {
    forall e :: ValidFormat(e) && Possible(file, 0, HeaderOf(e)) ==> e == f
  }

  ghost predicate OnlyZero(file: File, p: nat) {
    forall c :: Possible(file, p, c) ==> c == Zero
  }

  ghost predicate PhaseOk(y: System) {
    match y.phase
    case Closed => true
    case Running(f) => ValidFormat(f) && OnlyHeader(y.file, f)
    case Opening(f, step) =>
      && ValidFormat(f)
      && match step
         case Check => true
         case Clear(k) => k <= ClearedPages(f) && forall j: nat :: j < k ==> Latest(y.file, ClearedPage(f, j)) == Zero
         case PublishHeader => forall p :: HeadPage(f, p) ==> OnlyZero(y.file, p)
         case SyncHeader => Latest(y.file, 0) == HeaderOf(f)
  }

  ghost predicate Inv(y: System) {
    Fenced(y.file) && PhaseOk(y)
  }

  /** A header that matches is trusted only when no other header can be left by a crash. */
  ghost predicate Guarded(y: System, a: Action) {
    a.Advance? && y.phase.Opening? && y.phase.step.Check? && Latest(y.file, 0) == HeaderOf(y.phase.format) ==>
      OnlyHeader(y.file, y.phase.format)
  }

  ghost predicate Reaches(y: System, actions: seq<Action>, z: System, guarded: bool)
    decreases |actions|
  {
    if actions == [] then z == y
    else
      && Enabled(y, actions[0]) && (guarded ==> Guarded(y, actions[0]))
      && Reaches(Apply(y, actions[0]), actions[1..], z, guarded)
  }

  /** While a process has the file, nothing is left beyond its capacity. */
  ghost predicate Sized(y: System) {
    !y.phase.Closed? ==>
      && ValidFormat(y.phase.format)
      && forall p: nat :: p >= y.phase.format.chunks * PAGES_PER_CHUNK ==> Latest(y.file, p) == Zero
  }

  lemma ClearedInside(f: Format, k: nat)
    requires ValidFormat(f) && k < ClearedPages(f)
    ensures ClearedPage(f, k) < f.chunks * PAGES_PER_CHUNK
  {
    ShardsPartitionFile(f.chunks);
    StartsIncrease(f.chunks, k / PAGES_PER_CHUNK, ShardCount(f.chunks));
  }

  lemma SizedKept(y: System, a: Action)
    requires Sized(y) && Enabled(y, a)
    ensures Sized(Apply(y, a))
  {
    var z := Apply(y, a);
    if a.Advance? && y.phase.step.Clear? {
      ClearedInside(y.phase.format, y.phase.step.k);
    }
    if !z.phase.Closed? {
      forall p: nat | p >= z.phase.format.chunks * PAGES_PER_CHUNK ensures Latest(z.file, p) == Zero {
        if a.Sync? {
          assert Latest(z.file, p) == Synced(z.file, p) == Latest(y.file, p);
        } else if z.file != y.file {
          IssuePossible(y.file, z.file.unsynced[|z.file.unsynced| - 1], p, Zero);
        }
      }
    }
  }

  /** In every run, whatever a larger file left behind, pages beyond the capacity read as zeroes after an opening. */
  lemma {:induction false} NothingBeyondCapacity(y: System, actions: seq<Action>, z: System)
    requires Sized(y) && Reaches(y, actions, z, false)
    ensures Sized(z)
    decreases |actions|
  {
    if actions != [] {
      SizedKept(y, actions[0]);
      NothingBeyondCapacity(Apply(y, actions[0]), actions[1..], z);
    }
  }

  /** What a step asks of the file. */
  ghost function EventsOf(y: System, a: Action, z: System): seq<Event> {
    if a.Sync? then [SyncedAll]
    else if |z.file.unsynced| > |y.file.unsynced| then [Issued(z.file.unsynced[|z.file.unsynced| - 1])]
    else []
  }

  ghost function Log(y: System, actions: seq<Action>): seq<Event>
    decreases |actions|
  {
    if actions == [] || !Enabled(y, actions[0]) then []
    else
      var z := Apply(y, actions[0]);
      EventsOf(y, actions[0], z) + Log(z, actions[1..])
  }

  /** What is left to do from a step of the opening on. */
  ghost function Remaining(f: Format, step: Step): seq<Event>
    requires ValidFormat(f)
  {
    match step
    case Check => OpeningEvents(f)
    case Clear(k) => Clears(f, k) + [SyncedAll, Issued(Write(0, HeaderOf(f))), SyncedAll]
    case PublishHeader => [Issued(Write(0, HeaderOf(f))), SyncedAll]
    case SyncHeader => [SyncedAll]
  }

  lemma AdvanceRemains(y: System, a: Action)
    requires Enabled(y, a) && (a.Advance? || a.Sync?) && y.phase.Opening?
    requires y.phase.step.Check? ==> Latest(y.file, 0) != HeaderOf(y.phase.format)
    ensures
      var f, z := y.phase.format, Apply(y, a);
      && ValidFormat(f) && (z.phase == Running(f) || (z.phase.Opening? && z.phase.format == f && !z.phase.step.Check?))
      && Remaining(f, y.phase.step)
        == EventsOf(y, a, z) + if z.phase.Opening? then Remaining(f, z.phase.step) else []
  {
    var f, z := y.phase.format, Apply(y, a);
    if y.phase.step.Clear? {
      var last := [SyncedAll, Issued(Write(0, HeaderOf(f))), SyncedAll];
      if a.Advance? {
        assert Clears(f, y.phase.step.k) == EventsOf(y, a, z) + Clears(f, y.phase.step.k + 1);
      } else {
        assert [] + last == last;
      }
    }
  }

  /**
   Every opening that finds another header, and is neither killed nor crashed before it runs, asks the file for
   exactly what the method asks for, in the same order.
   */
  lemma {:induction false} OpeningAsksForEvents(y: System, actions: seq<Action>, z: System)
    requires y.phase.Opening? && ValidFormat(y.phase.format) && Reaches(y, actions, z, false)
    requires y.phase.step.Check? ==> Latest(y.file, 0) != HeaderOf(y.phase.format)
    requires (forall i :: 0 <= i < |actions| ==> actions[i].Advance? || actions[i].Sync?) && z.phase.Running?
    ensures Log(y, actions) == Remaining(y.phase.format, y.phase.step)
    decreases |actions|
  {
    var m := Apply(y, actions[0]);
    AdvanceRemains(y, actions[0]);
    if !m.phase.Running? {
      OpeningAsksForEvents(m, actions[1..], z);
    }
  }

  // ---------------------------------------------------------------- what every step keeps

  /** An operation keeps the fence if it leaves no new header and only contents that every possible header allows. */
  lemma IssueFenced(file: File, op: Operation)
    requires Fenced(file)
    requires forall e :: !Leaves(op, 0, HeaderOf(e))
    requires forall e, p, c ::
      ValidFormat(e) && Possible(file, 0, HeaderOf(e)) && HeadPage(e, p) && Leaves(op, p, c) ==> Own(e, c)
    ensures Fenced(Issue(file, op))
  {
    var after := Issue(file, op);
    forall e, p, c | ValidFormat(e) && Possible(after, 0, HeaderOf(e)) && HeadPage(e, p) && Possible(after, p, c)
      ensures Own(e, c)
    {
      IssuePossible(file, op, 0, HeaderOf(e));
      IssuePossible(file, op, p, c);
    }
  }

  lemma IssueOnlyHeader(file: File, op: Operation, f: Format)
    requires OnlyHeader(file, f) && forall e :: !Leaves(op, 0, HeaderOf(e))
    ensures OnlyHeader(Issue(file, op), f)
  {
    forall e | ValidFormat(e) && Possible(Issue(file, op), 0, HeaderOf(e)) ensures e == f {
      IssuePossible(file, op, 0, HeaderOf(e));
    }
  }

  lemma OpenKeepsInv(y: System, f: Format)
    requires Inv(y) && Enabled(y, Open(f))
    ensures Inv(Apply(y, Open(f)))
  {
    IssueFenced(y.file, Truncate(f.chunks * PAGES_PER_CHUNK));
  }

  lemma ClearKeepsInv(y: System, f: Format, k: nat)
    requires Inv(y) && y.phase == Opening(f, Clear(k)) && k < ClearedPages(f)
    ensures Inv(Apply(y, Advance))
  {
    var op := Write(ClearedPage(f, k), Zero);
    HeadsAfterHeader(f, ClearedPage(f, k));
    IssueFenced(y.file, op);
    forall j: nat | j < k + 1 ensures Latest(Issue(y.file, op), ClearedPage(f, j)) == Zero {
      IssuePossible(y.file, op, ClearedPage(f, j), Zero);
    }
  }

  lemma PublishKeepsInv(y: System, f: Format)
    requires Inv(y) && y.phase == Opening(f, PublishHeader)
    ensures Inv(Apply(y, Advance))
  {
    var op := Write(0, HeaderOf(f));
    var after := Issue(y.file, op);
    forall e, p, c | ValidFormat(e) && Possible(after, 0, HeaderOf(e)) && HeadPage(e, p) && Possible(after, p, c)
      ensures Own(e, c)
    {
      IssuePossible(y.file, op, 0, HeaderOf(e));
      IssuePossible(y.file, op, p, c);
      HeadsAfterHeader(e, p);
      assert e == f ==> OnlyZero(y.file, p);
    }
    IssuePossible(y.file, op, 0, HeaderOf(f));
  }

  lemma PutKeepsInv(y: System, f: Format, p: nat)
    requires Inv(y) && y.phase == Running(f) && Enabled(y, Put(p))
    ensures Inv(Apply(y, Put(p)))
  {
    IssueFenced(y.file, Write(p, Data(f)));
    IssueOnlyHeader(y.file, Write(p, Data(f)), f);
  }

  /** Whatever subset of unsynced writes is left, nothing new becomes possible. */
  lemma LeftKeepsFence(file: File, after: File)
    requires Fenced(file) && CrashedFrom(file, after)
    ensures Fenced(after)
  {
    forall e, p, c | ValidFormat(e) && Possible(after, 0, HeaderOf(e)) && HeadPage(e, p) && Possible(after, p, c)
      ensures Own(e, c)
    {
      assert Possible(file, 0, Synced(after, 0)) && Possible(file, p, Synced(after, p));
    }
  }

  lemma SyncIsCrash(file: File, after: File)
    requires SyncedFrom(file, after)
    ensures CrashedFrom(file, after)
  {
    forall p: nat ensures Possible(file, p, Synced(after, p)) {
      LatestPossible(file, p);
    }
  }

  lemma SyncKeepsInv(y: System, after: File)
    requires Inv(y) && Enabled(y, Sync(after))
    ensures Inv(Apply(y, Sync(after)))
  {
    var f := y.phase.format;
    SyncIsCrash(y.file, after);
    LeftKeepsFence(y.file, after);
    if y.phase.step.Clear? {
      forall p | HeadPage(f, p) ensures OnlyZero(after, p) {
        var k: nat :| k < ClearedPages(f) && p == ClearedPage(f, k);
        assert Latest(y.file, ClearedPage(f, k)) == Zero;
      }
    }
  }

  lemma ApplyKeepsInv(y: System, a: Action)
    requires Inv(y) && Enabled(y, a) && Guarded(y, a)
    ensures Inv(Apply(y, a))
  {
    match a
    case Open(f) => OpenKeepsInv(y, f);
    case Advance =>
      match y.phase.step {
        case Check =>
        case Clear(k) => ClearKeepsInv(y, y.phase.format, k);
        case PublishHeader => PublishKeepsInv(y, y.phase.format);
      }
    case Sync(after) => SyncKeepsInv(y, after);
    case Put(p) => PutKeepsInv(y, y.phase.format, p);
    case Stop =>
    case Crash(after) => LeftKeepsFence(y.file, after);
  }

  /**
   In every run whose matching openings are guarded, stopped anywhere with any unsynced writes lost, kept or
   torn: the shard heads behind a header hold nothing of another format.
   */
  lemma {:induction false} FenceHolds(y: System, actions: seq<Action>, z: System)
    requires Inv(y) && Reaches(y, actions, z, true)
    ensures Inv(z)
    decreases |actions|
  {
    if actions != [] {
      ApplyKeepsInv(y, actions[0]);
      FenceHolds(Apply(y, actions[0]), actions[1..], z);
    }
  }

  /** Right after any opening, whether it trusted the header or replaced it, the heads are the format's own. */
  lemma OwnHeadsWhenRunning(y: System, actions: seq<Action>, z: System, p: nat)
    requires Inv(y) && Reaches(y, actions, z, true) && z.phase.Running? && Latest(z.file, 0) == HeaderOf(z.phase.format)
    requires ValidFormat(z.phase.format) && HeadPage(z.phase.format, p)
    ensures Own(z.phase.format, Latest(z.file, p))
  {
    FenceHolds(y, actions, z);
    LatestPossible(z.file, 0);
    LatestPossible(z.file, p);
  }

  // ---------------------------------------------------------------- when openings are guarded

  /** No unsynced operation touches the header page. */
  ghost predicate Settled(file: File) {
    forall op :: op in file.unsynced ==> match op
      case Write(p, _) => p != 0
      case Truncate(n) => n > 0
  }

  /** A header that a crash may leave is the one that reads find. */
  ghost predicate OneHeader(file: File) {
    forall e :: ValidFormat(e) && Possible(file, 0, HeaderOf(e)) ==> Latest(file, 0) == HeaderOf(e)
  }

  /** The process ends, without a crash, after writing a header and before syncing it. */
  predicate AbandonsHeader(y: System, a: Action) {
    a.Stop? && y.phase.Opening? && y.phase.step.SyncHeader?
  }

  ghost predicate Abandons(y: System, actions: seq<Action>)
    decreases |actions|
  {
    && actions != [] && Enabled(y, actions[0])
    && (AbandonsHeader(y, actions[0]) || Abandons(Apply(y, actions[0]), actions[1..]))
  }

  lemma {:induction false} SettledOneHeader(file: File)
    requires Settled(file)
    ensures Latest(file, 0) == Synced(file, 0) && OneHeader(file)
    decreases |file.unsynced|
  {
    if file.unsynced != [] {
      assert file.unsynced[|file.unsynced| - 1] in file.unsynced;
      assert forall op :: op in Before(file).unsynced ==> op in file.unsynced;
      SettledOneHeader(Before(file));
    }
  }

  ghost predicate Tracked(y: System) {
    && (OneHeader(y.file) || (y.phase.Opening? && y.phase.step.SyncHeader?))
    && (y.phase.Opening? ==> ValidFormat(y.phase.format))
  }

  /** An operation on other pages keeps the header page as it is. */
  lemma IssueOneHeader(file: File, op: Operation)
    requires OneHeader(file)
    requires match op
      case Write(p, _) => p != 0
      case Truncate(n) => n > 0
    ensures OneHeader(Issue(file, op))
  {
    forall e | ValidFormat(e) && Possible(Issue(file, op), 0, HeaderOf(e))
      ensures Latest(Issue(file, op), 0) == HeaderOf(e)
    {
      IssuePossible(file, op, 0, HeaderOf(e));
    }
  }

  lemma TrackedStep(y: System, a: Action)
    requires Tracked(y) && Enabled(y, a) && !AbandonsHeader(y, a)
    ensures Tracked(Apply(y, a)) && Guarded(y, a)
  {
    match a
    case Open(f) => IssueOneHeader(y.file, Truncate(f.chunks * PAGES_PER_CHUNK));
    case Advance =>
      if y.phase.step.Clear? {
        var f, k := y.phase.format, y.phase.step.k;
        HeadsAfterHeader(f, ClearedPage(f, k));
        IssueOneHeader(y.file, Write(ClearedPage(f, k), Zero));
      }
    case Sync(after) =>
    case Put(p) => IssueOneHeader(y.file, Write(p, Data(y.phase.format)));
    case Stop =>
    case Crash(after) =>
  }

  /**
   From a file with one possible header, when every stop between a header write and its sync is a crash, all
   openings are guarded.
   */
  lemma {:induction false} CrashStopsAreGuarded(y: System, actions: seq<Action>, z: System)
    requires Tracked(y) && Reaches(y, actions, z, false) && !Abandons(y, actions)
    ensures Reaches(y, actions, z, true)
    decreases |actions|
  {
    if actions != [] {
      TrackedStep(y, actions[0]);
      CrashStopsAreGuarded(Apply(y, actions[0]), actions[1..], z);
    }
  }

  /** So from any fenced file without unsynced operations on its header page, every crash point keeps the fence. */
  lemma EveryCrashPointIsFenced(file: File, actions: seq<Action>, z: System)
    requires Settled(file) && Fenced(file)
    requires Reaches(System(file, Closed), actions, z, false) && !Abandons(System(file, Closed), actions)
    ensures Fenced(z.file)
  {
    SettledOneHeader(file);
    CrashStopsAreGuarded(System(file, Closed), actions, z);
    FenceHolds(System(file, Closed), actions, z);
  }

  // ---------------------------------------------------------------- exactly when

  /** The fence holds after every run that abandons no header, whatever its later openings find. */
  ghost predicate AlwaysFenced(y: System) {
    forall actions, z :: Reaches(y, actions, z, false) && !Abandons(y, actions) ==> Fenced(z.file)
  }

  lemma {:induction false} NoStopNoAbandon(y: System, actions: seq<Action>)
    requires forall i :: 0 <= i < |actions| ==> !actions[i].Stop?
    ensures !Abandons(y, actions)
    decreases |actions|
  {
    if actions != [] && Enabled(y, actions[0]) {
      NoStopNoAbandon(Apply(y, actions[0]), actions[1..]);
    }
  }

  lemma PutRun(y: System, f: Format, e: Format, after: File) returns (z: System)
    requires y.phase == Running(f) && ValidFormat(f) && ValidFormat(e) && e != f && Possible(y.file, 0, HeaderOf(e))
    requires after == File(y.file.synced[0 := HeaderOf(e)][PAGES_PER_CHUNK := Data(f)], [])
    ensures Reaches(y, [Put(PAGES_PER_CHUNK), Crash(after)], z, false) && !Fenced(z.file)
    ensures !Abandons(y, [Put(PAGES_PER_CHUNK), Crash(after)])
  {
    var m := Apply(y, Put(PAGES_PER_CHUNK));
    var op := Write(PAGES_PER_CHUNK, Data(f));
    forall p: nat ensures Possible(m.file, p, Synced(after, p)) {
      IssuePossible(y.file, op, p, Synced(after, p));
    }
    z := Apply(m, Crash(after));
    var actions := [Put(PAGES_PER_CHUNK), Crash(after)];
    assert actions[1..] == [Crash(after)] && actions[1..][1..] == [];
    assert Reaches(m, [Crash(after)], z, false) by {
      assert [Crash(after)][1..] == [];
    }
    NoStopNoAbandon(y, actions);
    HeadsAfterHeader(e, 0);
    assert Possible(z.file, 0, HeaderOf(e)) && Possible(z.file, PAGES_PER_CHUNK, Data(f)) && !Own(e, Data(f));
  }

  /**
   Trusting a matching header is safe for every continuation that abandons no header exactly when no other
   header can be left by a crash.
   */
  lemma TrustIsSafeIff(y: System, f: Format)
    requires Inv(y) && y.phase == Opening(f, Check) && Latest(y.file, 0) == HeaderOf(f)
    ensures AlwaysFenced(Apply(y, Advance)) <==> OnlyHeader(y.file, f)
  {
    var z := Apply(y, Advance);
    if OnlyHeader(y.file, f) {
      forall actions, end | Reaches(z, actions, end, false) && !Abandons(z, actions) ensures Fenced(end.file) {
        CrashStopsAreGuarded(z, actions, end);
        FenceHolds(z, actions, end);
      }
    } else {
      var e :| ValidFormat(e) && Possible(y.file, 0, HeaderOf(e)) && e != f;
      var end := PutRun(z, f, e, File(y.file.synced[0 := HeaderOf(e)][PAGES_PER_CHUNK := Data(f)], []));
    }
  }

  // ---------------------------------------------------------------- an abandoned header

  lemma {:induction false} RunsCompose(y: System, a: seq<Action>, m: System, b: seq<Action>, z: System, guarded: bool)
    requires Reaches(y, a, m, guarded) && Reaches(m, b, z, guarded)
    ensures Reaches(y, a + b, z, guarded)
    decreases |a|
  {
    if a == [] {
      assert a + b == b;
    } else {
      assert (a + b)[0] == a[0] && (a + b)[1..] == a[1..] + b;
      RunsCompose(Apply(y, a[0]), a[1..], m, b, z, guarded);
    }
  }

  lemma OneStep(y: System, a: Action)
    requires Enabled(y, a)
    ensures Reaches(y, [a], Apply(y, a), false)
  {
    assert [a][1..] == [];
  }

  /** Clearing runs to its end, and leaves the header page alone. */
  lemma {:induction false} ClearRun(y: System, f: Format, k: nat) returns (actions: seq<Action>, z: System)
    requires ValidFormat(f) && y.phase == Opening(f, Clear(k)) && k <= ClearedPages(f)
    ensures Reaches(y, actions, z, false) && z.phase == Opening(f, Clear(ClearedPages(f)))
    ensures Latest(z.file, 0) == Latest(y.file, 0)
    decreases ClearedPages(f) - k
  {
    if k == ClearedPages(f) {
      actions, z := [], y;
    } else {
      HeadsAfterHeader(f, ClearedPage(f, k));
      IssuePossible(y.file, Write(ClearedPage(f, k), Zero), 0, Zero);
      var rest;
      rest, z := ClearRun(Apply(y, Advance), f, k + 1);
      actions := [Advance] + rest;
      assert actions[1..] == rest;
    }
  }

  /** Opening a file as `f` up to its unsynced header, then being killed and opened again. */
  lemma AbandonedRun(file: File, e: Format, f: Format) returns (actions: seq<Action>, z: System)
    requires file.unsynced == [] && Synced(file, 0) == HeaderOf(e) && ValidFormat(e) && ValidFormat(f) && e != f
    ensures Reaches(System(file, Closed), actions, z, false) && z.phase == Running(f)
    ensures Possible(z.file, 0, HeaderOf(e))
  {
    var y := System(file, Closed);
    var checking := Apply(y, Open(f));
    IssuePossible(file, Truncate(f.chunks * PAGES_PER_CHUNK), 0, Zero);
    var clearing := Apply(checking, Advance);
    var clears, cleared := ClearRun(clearing, f, 0);
    var synced := Apply(cleared, Sync(Flush(cleared.file)));
    var published := Apply(synced, Advance);
    IssuePossible(synced.file, Write(0, HeaderOf(f)), 0, HeaderOf(e));
    var stopped := Apply(published, Stop);
    var again := Apply(stopped, Open(f));
    IssuePossible(stopped.file, Truncate(f.chunks * PAGES_PER_CHUNK), 0, HeaderOf(e));
    z := Apply(again, Advance);
    var first, last := [Open(f), Advance], [Sync(Flush(cleared.file)), Advance, Stop, Open(f), Advance];
    FirstSteps(y, checking, clearing, f);
    LastSteps(cleared, synced, published, stopped, again, z, f);
    RunsCompose(y, first, clearing, clears, cleared, false);
    actions := first + clears + last;
    RunsCompose(y, first + clears, cleared, last, z, false);
  }

  lemma FirstSteps(y: System, checking: System, clearing: System, f: Format)
    requires Enabled(y, Open(f)) && checking == Apply(y, Open(f))
    requires Enabled(checking, Advance) && clearing == Apply(checking, Advance)
    ensures Reaches(y, [Open(f), Advance], clearing, false)
  {
    OneStep(y, Open(f));
    OneStep(checking, Advance);
    RunsCompose(y, [Open(f)], checking, [Advance], clearing, false);
    assert [Open(f)] + [Advance] == [Open(f), Advance];
  }

  lemma LastSteps(y: System, synced: System, published: System, stopped: System, again: System, z: System, f: Format)
    requires Enabled(y, Sync(Flush(y.file))) && synced == Apply(y, Sync(Flush(y.file)))
    requires Enabled(synced, Advance) && published == Apply(synced, Advance) && stopped == Apply(published, Stop)
    requires Enabled(stopped, Open(f)) && again == Apply(stopped, Open(f))
    requires Enabled(again, Advance) && z == Apply(again, Advance)
    ensures Reaches(y, [Sync(Flush(y.file)), Advance, Stop, Open(f), Advance], z, false)
  {
    var sync := Sync(Flush(y.file));
    FirstSteps(stopped, again, z, f);
    OneStep(published, Stop);
    RunsCompose(published, [Stop], stopped, [Open(f), Advance], z, false);
    OneStep(synced, Advance);
    RunsCompose(synced, [Advance], published, [Stop] + [Open(f), Advance], z, false);
    OneStep(y, sync);
    RunsCompose(y, [sync], synced, [Advance] + ([Stop] + [Open(f), Advance]), z, false);
    assert [sync] + ([Advance] + ([Stop] + [Open(f), Advance])) == [sync, Advance, Stop, Open(f), Advance];
  }

  /**
   The fence is not kept in general: from any synced file of format `e`, opening as `f`, being killed between the
   header write and its sync, and opening again reaches a crash that leaves `e`'s header over `f`'s pages.
   */
  lemma AbandonedHeaderBreaksFence(file: File, e: Format, f: Format) returns (actions: seq<Action>, z: System)
    requires file.unsynced == [] && Synced(file, 0) == HeaderOf(e) && ValidFormat(e) && ValidFormat(f) && e != f
    ensures Reaches(System(file, Closed), actions, z, false) && !Fenced(z.file)
  {
    var before, y := AbandonedRun(file, e, f);
    var after := File(y.file.synced[0 := HeaderOf(e)][PAGES_PER_CHUNK := Data(f)], []);
    z := PutRun(y, f, e, after);
    var last := [Put(PAGES_PER_CHUNK), Crash(after)];
    RunsCompose(System(file, Closed), before, y, last, z, false);
    actions := before + last;
  }
}
