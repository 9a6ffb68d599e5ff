/** `zlog tail -f`: copying what log files grow by, across rotations. */
module LogFollow {
  import opened Text

  type Bytes = seq<Byte>

  /** A file, by device and inode. */
  type Ino = nat

  /** One thing written to standard output. Data says which file it was read from. */
  datatype Out = Header(kind: string) | Data(source: Ino, of: string, bytes: Bytes)

  /** What looking at one selected path found: its kind, the file and length `stat`
      saw, and the file that was opened with its contents when it was read. A failed
      call finds nothing. */
  datatype Seen = Seen(kind: string, stat: Option<(Ino, nat)>, read: Option<(Ino, Bytes)>)

  datatype Follow = Follow(offsets: map<Ino, nat>, lastKind: Option<string>, out: seq<Out>)

  /** The offset reading resumes at: zero for a file not seen before, and for one that
      is shorter than what was already shown. */
  function Resume(f: Follow, ino: Ino, len: nat): nat {
    if ino in f.offsets && f.offsets[ino] <= len then f.offsets[ino] else 0
  }

  /** `seek`, then `read_to_end`. */
  function From(c: Bytes, pos: nat): Bytes {
    if pos <= |c| then c[pos..] else []
  }

  predicate Turns(f: Follow, headed: bool, kind: string) {
    headed && f.lastKind != Some(kind)
  }

  /** What is written for one chunk: a header first when the log family changes. */
  function Written(turns: bool, source: Ino, kind: string, bytes: Bytes): seq<Out> {
    if turns then [Header(kind), Data(source, kind, bytes)] else [Data(source, kind, bytes)]
  }

  /** One path of a polling round. */
  function Visit(f: Follow, headed: bool, seen: Seen): Follow {
    if seen.stat.None? then f
    else
      var (ino, len) := seen.stat.value;
      var pos := Resume(f, ino, len);
      if len == pos || seen.read.None? then f.(offsets := f.offsets[ino := pos])
      else
        var bytes := From(seen.read.value.1, pos);
        var turns := Turns(f, headed, seen.kind);
        Follow(f.offsets[ino := pos + |bytes|], if turns then Some(seen.kind) else f.lastKind,
               f.out + Written(turns, seen.read.value.0, seen.kind, bytes))
  }

  function VisitAll(f: Follow, headed: bool, round: seq<Seen>): Follow {
    if round == [] then f else Visit(VisitAll(f, headed, round[..|round| - 1]), headed, round[|round| - 1])
  }

  class Follower {
    var offsets: map<Ino, nat>
    var lastKind: Option<string>
    var out: seq<Out>
    const headed: bool

    function State(): Follow
      reads this
    {
      Follow(offsets, lastKind, out)
    }

    /** Files present at the start are followed from their ends. */
    constructor (headed: bool, present: seq<(Ino, nat)>)
      ensures this.headed == headed && lastKind == None && out == []
      ensures offsets == Ends(present)
    {
      this.headed := headed;
      lastKind, out := None, [];
      var ends: map<Ino, nat> := map[];
      for i := 0 to |present|
        invariant ends == Ends(present[..i])
      {
        assert present[..i + 1][..i] == present[..i];
        ends := ends[present[i].0 := present[i].1];
      }
      assert present[..|present|] == present;
      offsets := ends;
    }

    /** One polling round over the selected paths. */
    method Poll(round: seq<Seen>)
      modifies this
      ensures State() == VisitAll(old(State()), headed, round)
    {
      for i := 0 to |round|
        invariant State() == VisitAll(old(State()), headed, round[..i])
      {
        assert round[..i + 1][..i] == round[..i];
        Look(round[i]);
      }
      assert round[..|round|] == round;
    }

    /** The body of the round's loop. */
    method Look(seen: Seen)
      modifies this
      ensures State() == Visit(old(State()), headed, seen)
    {
      if seen.stat.None? { return; }
      var ino, len := seen.stat.value.0, seen.stat.value.1;
      if ino !in offsets { offsets := offsets[ino := 0]; }
      if len < offsets[ino] { offsets := offsets[ino := 0]; }
      if len == offsets[ino] || seen.read.None? {
        assert offsets == old(offsets)[ino := Resume(old(State()), ino, len)];
        return;
      }
      var buf := From(seen.read.value.1, offsets[ino]);
      offsets := offsets[ino := offsets[ino] + |buf|];
      assert offsets == old(offsets)[ino := Resume(old(State()), ino, len) + |buf|];
      if headed && lastKind != Some(seen.kind) {
        out := out + [Header(seen.kind)];
        lastKind := Some(seen.kind);
      }
      out := out + [Data(seen.read.value.0, seen.kind, buf)];
    }
  }

  function Ends(present: seq<(Ino, nat)>): map<Ino, nat> {
    if present == [] then map[]
    else Ends(present[..|present| - 1])[present[|present| - 1].0 := present[|present| - 1].1]
  }

  // ----- the directory it watches -----

  datatype World = World(dir: map<string, Ino>, content: map<Ino, Bytes>, follow: Follow)

  datatype Event =
    | Append(ino: Ino, bytes: Bytes)
    | Create(path: string, ino: Ino)
    | Rename(src: string, dst: string)
    | Unlink(path: string)
    | Look(path: string, kind: string, grown: Bytes, opens: bool)

  /** Inodes are not reused, and only existing files grow. */
  predicate Possible(w: World, e: Event) {
    match e
    case Append(ino, _) => ino in w.content
    case Create(_, ino) => ino !in w.content
    case Rename(src, _) => src in w.dir
    case Unlink(path) => path in w.dir
    case Look(_, _, _, _) => true
  }

  /** A look takes one file's length, may see it grow by `grown`, and then reads it. */
  function Step(w: World, headed: bool, e: Event): World
    requires Possible(w, e) && forall p :: p in w.dir ==> w.dir[p] in w.content
  {
    match e
    case Append(ino, bytes) => w.(content := w.content[ino := w.content[ino] + bytes])
    case Create(path, ino) => w.(dir := w.dir[path := ino], content := w.content[ino := []])
    case Rename(src, dst) => w.(dir := (w.dir - {src})[dst := w.dir[src]])
    case Unlink(path) => w.(dir := w.dir - {path})
    case Look(path, kind, grown, opens) =>
      if path !in w.dir then w.(follow := Visit(w.follow, headed, Seen(kind, None, None)))
      else
        var ino := w.dir[path];
        var len, content' := |w.content[ino]|, w.content[ino] + grown;
        World(w.dir, w.content[ino := content'],
              Visit(w.follow, headed, Seen(kind, Some((ino, len)), if opens then Some((ino, content')) else None)))
  }

  /** All bytes shown of one file, in the order they were shown. */
  function Emitted(out: seq<Out>, ino: Ino): Bytes {
    if out == [] then []
    else
      var n := |out| - 1;
      Emitted(out[..n], ino) + (if out[n].Data? && out[n].source == ino then out[n].bytes else [])
  }

  function StartOf(start: map<Ino, nat>, ino: Ino): nat {
    if ino in start then start[ino] else 0
  }

  /** What has been shown of a file is what it holds from where following started up
      to the recorded offset. */
  predicate Shown(start: map<Ino, nat>, w: World, ino: Ino) {
    if ino in w.follow.offsets then
      && ino in w.content && StartOf(start, ino) <= w.follow.offsets[ino] <= |w.content[ino]|
      && Emitted(w.follow.out, ino) == w.content[ino][StartOf(start, ino)..w.follow.offsets[ino]]
    else ino !in start && Emitted(w.follow.out, ino) == []
  }

  ghost predicate Inv(start: map<Ino, nat>, w: World) {
    && (forall p :: p in w.dir ==> w.dir[p] in w.content)
    && (forall ino :: Shown(start, w, ino))
  }

  lemma EmittedMore(out: seq<Out>, turns: bool, source: Ino, kind: string, bytes: Bytes, ino: Ino)
    ensures Emitted(out + Written(turns, source, kind, bytes), ino) == Emitted(out, ino) + (if ino == source then bytes else [])
  {
    var headed := if turns then out + [Header(kind)] else out;
    assert out + Written(turns, source, kind, bytes) == headed + [Data(source, kind, bytes)];
    assert (headed + [Data(source, kind, bytes)])[..|headed|] == headed;
    if turns {
      assert headed[..|out|] == out;
      assert Emitted(headed, ino) == Emitted(out, ino) + [];
    }
  }

  lemma Continued(c: Bytes, grown: Bytes, start: nat, pos: nat)
    requires start <= pos <= |c|
    ensures (c + grown)[start..pos] == c[start..pos]
    ensures c[start..pos] + (c + grown)[pos..] == (c + grown)[start..|c + grown|]
    ensures c[start..] <= (c + grown)[start..]
  {
    assert (c + grown)[start..] == c[start..] + grown;
  }

  /** A look at a file that may grow while it is looked at. */
  function Looked(f: Follow, headed: bool, kind: string, ino: Ino, c: Bytes, grown: Bytes, opens: bool): Follow {
    Visit(f, headed, Seen(kind, Some((ino, |c|)), if opens then Some((ino, c + grown)) else None))
  }

  lemma LookedAtOthers(f: Follow, headed: bool, kind: string, ino: Ino, c: Bytes, grown: Bytes, opens: bool, other: Ino)
    requires other != ino
    ensures var f' := Looked(f, headed, kind, ino, c, grown, opens);
      && (other in f'.offsets <==> other in f.offsets)
      && (other in f.offsets ==> f'.offsets[other] == f.offsets[other])
      && Emitted(f'.out, other) == Emitted(f.out, other)
  {
    var pos := Resume(f, ino, |c|);
    if |c| != pos && opens {
      EmittedMore(f.out, Turns(f, headed, kind), ino, kind, From(c + grown, pos), other);
      assert Emitted(f.out, other) + [] == Emitted(f.out, other);
    }
  }

  lemma LookedAtFile(f: Follow, headed: bool, kind: string, ino: Ino, c: Bytes, grown: Bytes, opens: bool, start: nat)
    requires start <= |c|
    requires if ino in f.offsets then start <= f.offsets[ino] <= |c| && Emitted(f.out, ino) == c[start..f.offsets[ino]]
             else start == 0 && Emitted(f.out, ino) == []
    ensures var f' := Looked(f, headed, kind, ino, c, grown, opens);
      && ino in f'.offsets && start <= f'.offsets[ino] <= |c + grown|
      && Emitted(f'.out, ino) == (c + grown)[start..f'.offsets[ino]]
      && (opens ==> f'.offsets[ino] >= |c|)
  {
    var pos := Resume(f, ino, |c|);
    Continued(c, grown, start, pos);
    if |c| != pos && opens {
      EmittedMore(f.out, Turns(f, headed, kind), ino, kind, From(c + grown, pos), ino);
    }
  }

  lemma LookShows(start: map<Ino, nat>, w: World, headed: bool, e: Event, ino: Ino)
    requires Inv(start, w) && e.Look? && e.path in w.dir
    ensures Shown(start, Step(w, headed, e), ino)
  {
    var seen := w.dir[e.path];
    assert Shown(start, w, ino) && Shown(start, w, seen);
    var c := w.content[seen];
    assert Step(w, headed, e).follow == Looked(w.follow, headed, e.kind, seen, c, e.grown, e.opens);
    if ino == seen {
      LookedAtFile(w.follow, headed, e.kind, seen, c, e.grown, e.opens, StartOf(start, seen));
    } else {
      LookedAtOthers(w.follow, headed, e.kind, seen, c, e.grown, e.opens, ino);
    }
  }

  lemma StepKeepsInv(start: map<Ino, nat>, w: World, headed: bool, e: Event)
    requires Inv(start, w) && Possible(w, e)
    ensures Inv(start, Step(w, headed, e))
  {
    var w' := Step(w, headed, e);
    forall ino
      ensures Shown(start, w', ino)
    {
      assert Shown(start, w, ino);
      if e.Look? && e.path in w.dir {
        LookShows(start, w, headed, e, ino);
      } else if e.Append? && ino == e.ino && ino in w.follow.offsets {
        var s, o := StartOf(start, ino), w.follow.offsets[ino];
        assert w'.content[ino][s..o] == w.content[ino][s..o];
      }
    }
  }

  predicate Run(w: World, headed: bool, events: seq<Event>, w': World)
    decreases |events|
  {
    if events == [] then w == w'
    else
      && Possible(w, events[0]) && (forall p :: p in w.dir ==> w.dir[p] in w.content)
      && Run(Step(w, headed, events[0]), headed, events[1..], w')
  }

  /** Over every run, each file's bytes are shown exactly once and in order: from its
      length when following started (or its beginning, when it appeared later) up to
      its recorded offset, whatever names it goes by. */
  lemma {:induction false} ShownExactlyOnce(start: map<Ino, nat>, w: World, headed: bool, events: seq<Event>, w': World)
    requires Inv(start, w) && Run(w, headed, events, w')
    ensures Inv(start, w')
    decreases |events|
  {
    if events != [] {
      StepKeepsInv(start, w, headed, events[0]);
      ShownExactlyOnce(start, Step(w, headed, events[0]), headed, events[1..], w');
    }
  }

  /** Following starts out with nothing shown. */
  lemma StartsWithNothingShown(dir: map<string, Ino>, content: map<Ino, Bytes>, start: map<Ino, nat>)
    requires forall p :: p in dir ==> dir[p] in content
    requires forall ino :: ino in start ==> ino in content && start[ino] == |content[ino]|
    ensures Inv(start, World(dir, content, Follow(start, None, [])))
  {
  }

  // ----- the files present at the start -----

  predicate IsListed(present: seq<(Ino, nat)>, ino: Ino) {
    exists i :: 0 <= i < |present| && present[i].0 == ino
  }

  /** The listing gives existing files, each with its length. */
  predicate ListsFiles(present: seq<(Ino, nat)>, content: map<Ino, Bytes>) {
    forall i :: 0 <= i < |present| ==> present[i].0 in content && present[i].1 == |content[present[i].0]|
  }

  lemma {:induction false} EndsAreLengths(present: seq<(Ino, nat)>, content: map<Ino, Bytes>, ino: Ino)
    requires ListsFiles(present, content)
    ensures ino in Ends(present) <==> IsListed(present, ino)
    ensures ino in Ends(present) ==> ino in content && Ends(present)[ino] == |content[ino]|
  {
    if present != [] {
      var n := |present| - 1;
      EndsAreLengths(present[..n], content, ino);
      if IsListed(present[..n], ino) {
        var i :| 0 <= i < n && present[..n][i].0 == ino;
        assert present[i].0 == ino;
      }
      if present[n].0 == ino { assert IsListed(present, ino); }
    }
  }

  /** Following starts at the ends of the files listed, and with all else unseen: it has
      shown exactly what it should have, nothing. */
  lemma StartsAtTheEnds(dir: map<string, Ino>, content: map<Ino, Bytes>, present: seq<(Ino, nat)>)
    requires (forall p :: p in dir ==> dir[p] in content) && ListsFiles(present, content)
    ensures forall ino :: ino in Ends(present) <==> IsListed(present, ino)
    ensures forall ino :: ino in Ends(present) ==> ino in content && Ends(present)[ino] == |content[ino]|
    ensures Inv(Ends(present), World(dir, content, Follow(Ends(present), None, [])))
  {
    forall ino
      ensures ino in Ends(present) <==> IsListed(present, ino)
      ensures ino in Ends(present) ==> ino in content && Ends(present)[ino] == |content[ino]|
    {
      EndsAreLengths(present, content, ino);
    }
    StartsWithNothingShown(dir, content, Ends(present));
  }

  /** Since the start each file has grown to what `grown` holds. */
  predicate Grew(content: map<Ino, Bytes>, grown: map<Ino, Bytes>) {
    forall ino :: ino in content ==> ino in grown && content[ino] <= grown[ino]
  }

  /** Each look of the round finds a listed file as it is now. */
  predicate LooksAt(round: seq<Seen>, present: seq<(Ino, nat)>, grown: map<Ino, Bytes>) {
    forall i :: 0 <= i < |round| ==>
      var seen := round[i];
      && seen.stat.Some? && IsListed(present, seen.stat.value.0) && seen.stat.value.0 in grown
      && seen.stat.value.1 == |grown[seen.stat.value.0]|
      && seen.read == Some((seen.stat.value.0, grown[seen.stat.value.0]))
  }

  predicate LookedAt(round: seq<Seen>, ino: Ino) {
    exists i :: 0 <= i < |round| && round[i].stat.Some? && round[i].stat.value.0 == ino
  }

  lemma LookedAtSnoc(round: seq<Seen>, ino: Ino)
    requires round != []
    ensures var n := |round| - 1;
      LookedAt(round, ino) <==> LookedAt(round[..n], ino) || (round[n].stat.Some? && round[n].stat.value.0 == ino)
  {
    var n := |round| - 1;
    if LookedAt(round[..n], ino) {
      var i :| 0 <= i < n && round[..n][i].stat.Some? && round[..n][i].stat.value.0 == ino;
      assert round[i].stat.value.0 == ino;
    }
  }

  /** Where a listed file stands in the course of the first round. */
  predicate ShowsGrowth(f: Follow, content: map<Ino, Bytes>, grown: map<Ino, Bytes>, ino: Ino, looked: bool)
    requires ino in content && ino in grown && content[ino] <= grown[ino]
  {
    && ino in f.offsets && f.offsets[ino] == (if looked then |grown[ino]| else |content[ino]|)
    && Emitted(f.out, ino) == if looked then grown[ino][|content[ino]|..] else []
  }

  /** A look that finds all of a file shows what is new of it and nothing else. */
  lemma WholeLook(f: Follow, headed: bool, seen: Seen, at: Ino, c: Bytes, x: Ino)
    requires seen.stat == Some((at, |c|)) && seen.read == Some((at, c))
    ensures var f', pos := Visit(f, headed, seen), Resume(f, at, |c|);
      && pos <= |c| && f'.offsets == f.offsets[at := |c|]
      && Emitted(f'.out, x) == Emitted(f.out, x) + if x == at then c[pos..] else []
  {
    var pos := Resume(f, at, |c|);
    if |c| != pos { EmittedMore(f.out, Turns(f, headed, seen.kind), at, seen.kind, From(c, pos), x); }
    assert Emitted(f.out, x) + [] == Emitted(f.out, x);
  }

  lemma VisitShowsGrowth(f: Follow, headed: bool, seen: Seen, content: map<Ino, Bytes>, grown: map<Ino, Bytes>, ino: Ino, looked: bool)
    requires ino in content && ino in grown && content[ino] <= grown[ino] && ShowsGrowth(f, content, grown, ino, looked)
    requires seen.stat.Some? && seen.stat.value.0 in grown && seen.stat.value.1 == |grown[seen.stat.value.0]|
    requires seen.read == Some((seen.stat.value.0, grown[seen.stat.value.0]))
    ensures ShowsGrowth(Visit(f, headed, seen), content, grown, ino, looked || seen.stat.value.0 == ino)
  {
    hide Visit, Emitted;
    var at := seen.stat.value.0;
    WholeLook(f, headed, seen, at, grown[at], ino);
    var before, more := Emitted(f.out, ino), grown[at][Resume(f, at, |grown[at]|)..];
    assert before + [] == before;
    if at == ino {
      if looked { assert before + more == before; } else { assert before + more == more; }
    }
  }

  lemma {:induction false} RoundShowsGrowth(present: seq<(Ino, nat)>, content: map<Ino, Bytes>, grown: map<Ino, Bytes>,
                                            headed: bool, round: seq<Seen>, ino: Ino)
    requires ListsFiles(present, content) && Grew(content, grown) && LooksAt(round, present, grown) && IsListed(present, ino)
    ensures ino in content
    ensures ShowsGrowth(VisitAll(Follow(Ends(present), None, []), headed, round), content, grown, ino, LookedAt(round, ino))
  {
    EndsAreLengths(present, content, ino);
    if round != [] {
      hide Visit, ShowsGrowth, Emitted, LookedAt, ListsFiles, Grew;
      var n := |round| - 1;
      RoundShowsGrowth(present, content, grown, headed, round[..n], ino);
      GrewAt(content, grown, ino);
      VisitShowsGrowth(VisitAll(Follow(Ends(present), None, []), headed, round[..n]), headed, round[n], content, grown, ino,
                       LookedAt(round[..n], ino));
      LookedAtSnoc(round, ino);
    }
  }

  lemma GrewAt(content: map<Ino, Bytes>, grown: map<Ino, Bytes>, ino: Ino)
    requires Grew(content, grown) && ino in content
    ensures ino in grown && content[ino] <= grown[ino]
  {
  }

  /** The first round, in whatever order and however often it looks at a file, shows of
      each file it looks at exactly what it has grown by. */
  lemma FirstRoundShowsTheGrowth(present: seq<(Ino, nat)>, content: map<Ino, Bytes>, grown: map<Ino, Bytes>, headed: bool,
                                 round: seq<Seen>, ino: Ino)
    requires ListsFiles(present, content) && Grew(content, grown) && LooksAt(round, present, grown) && IsListed(present, ino)
    ensures ino in content && ino in grown
    ensures Emitted(VisitAll(Follow(Ends(present), None, []), headed, round).out, ino)
      == if LookedAt(round, ino) then grown[ino][|content[ino]|..] else []
  {
    RoundShowsGrowth(present, content, grown, headed, round, ino);
  }

  /** Where nothing has grown it writes nothing, no header either. */
  lemma {:induction false} NothingNewNothingWritten(present: seq<(Ino, nat)>, content: map<Ino, Bytes>, headed: bool, round: seq<Seen>)
    requires ListsFiles(present, content) && LooksAt(round, present, content)
    ensures VisitAll(Follow(Ends(present), None, []), headed, round) == Follow(Ends(present), None, [])
  {
    if round != [] {
      var n := |round| - 1;
      NothingNewNothingWritten(present, content, headed, round[..n]);
      var ino := round[n].stat.value.0;
      EndsAreLengths(present, content, ino);
      assert Ends(present)[ino := |content[ino]|] == Ends(present);
    }
  }

  /** A successful look leaves nothing behind that was there when it began. */
  lemma LookCatchesUp(start: map<Ino, nat>, w: World, headed: bool, e: Event)
    requires Inv(start, w) && e.Look? && e.opens && e.path in w.dir
    ensures var ino := w.dir[e.path];
      && StartOf(start, ino) <= |w.content[ino]|
      && w.content[ino][StartOf(start, ino)..] <= Emitted(Step(w, headed, e).follow.out, ino)
  {
    hide Visit, Emitted;
    var ino := w.dir[e.path];
    assert Shown(start, w, ino);
    var c, s, f' := w.content[ino], StartOf(start, ino), Looked(w.follow, headed, e.kind, ino, w.content[ino], e.grown, true);
    assert Step(w, headed, e).follow == f';
    LookedAtFile(w.follow, headed, e.kind, ino, c, e.grown, true, s);
    StillInFront(c, e.grown, s, f'.offsets[ino]);
  }

  lemma StillInFront(c: Bytes, grown: Bytes, start: nat, end: nat)
    requires start <= |c| <= end <= |c + grown|
    ensures c[start..] <= (c + grown)[start..end]
  {
  }

  // ----- where it is not exactly once -----

  /** A file that was truncated and written anew is shown from its start exactly when
      it is looked at while shorter than what had been shown. */
  lemma TruncationIsNoticedExactlyWhileShorter(f: Follow, headed: bool, kind: string, ino: Ino, rewritten: Bytes)
    requires ino in f.offsets
    ensures var f' := Visit(f, headed, Seen(kind, Some((ino, |rewritten|)), Some((ino, rewritten))));
      Emitted(f'.out, ino) == Emitted(f.out, ino) + rewritten <==> f.offsets[ino] == 0 || |rewritten| < f.offsets[ino]
  {
    var pos := Resume(f, ino, |rewritten|);
    if |rewritten| != pos {
      EmittedMore(f.out, Turns(f, headed, kind), ino, kind, From(rewritten, pos), ino);
      assert From(rewritten, 0) == rewritten;
      assert |Emitted(f.out, ino) + rewritten| == |Emitted(f.out, ino)| + |rewritten|;
    } else {
      assert Emitted(f.out, ino) + [] == Emitted(f.out, ino);
    }
  }

  /** A look whose `stat` and `open` found different files. */
  function Mixed(f: Follow, headed: bool, kind: string, ino: Ino, len: nat, other: Ino, c: Bytes): Follow {
    Visit(f, headed, Seen(kind, Some((ino, len)), Some((other, c))))
  }

  /** The bytes such a look reads of the other file, at this file's offset. */
  function MixedBytes(f: Follow, ino: Ino, len: nat, c: Bytes): Bytes {
    var pos := Resume(f, ino, len);
    if len == pos then [] else From(c, pos)
  }

  lemma MixedLook(f: Follow, headed: bool, kind: string, ino: Ino, len: nat, other: Ino, c: Bytes)
    requires ino != other
    ensures var f', bytes := Mixed(f, headed, kind, ino, len, other, c), MixedBytes(f, ino, len, c);
      && f'.offsets == f.offsets[ino := Resume(f, ino, len) + |bytes|]
      && Emitted(f'.out, ino) == Emitted(f.out, ino)
      && Emitted(f'.out, other) == Emitted(f.out, other) + bytes
  {
    var pos := Resume(f, ino, len);
    if len != pos {
      var bytes := From(c, pos);
      EmittedMore(f.out, Turns(f, headed, kind), other, kind, bytes, ino);
      EmittedMore(f.out, Turns(f, headed, kind), other, kind, bytes, other);
      assert Emitted(f.out, ino) + [] == Emitted(f.out, ino);
    } else {
      assert Emitted(f.out, other) + [] == Emitted(f.out, other);
    }
  }

  /** When the path is rotated between `stat` and `open`, another file is read from
      this file's offset. What is shown then stays exact for both files exactly when
      nothing was read. */
  lemma RotationUnderALook(start: map<Ino, nat>, w: World, headed: bool, kind: string, ino: Ino, other: Ino)
    requires Inv(start, w) && ino != other && ino in w.content && other in w.content
    ensures var len, c := |w.content[ino]|, w.content[other];
      var w' := World(w.dir, w.content, Mixed(w.follow, headed, kind, ino, len, other, c));
      (Shown(start, w', ino) && Shown(start, w', other)) <==> MixedBytes(w.follow, ino, len, c) == []
  {
    var f, len, c := w.follow, |w.content[ino]|, w.content[other];
    assert Shown(start, w, ino) && Shown(start, w, other);
    MixedLook(f, headed, kind, ino, len, other, c);
    var bytes := MixedBytes(f, ino, len, c);
    assert |Emitted(f.out, other) + bytes| == |Emitted(f.out, other)| + |bytes|;
    if bytes == [] { assert Emitted(f.out, other) + bytes == Emitted(f.out, other); }
  }

  // ----- headers -----

  function LastHeader(out: seq<Out>): Option<string> {
    if out == [] then None
    else if out[|out| - 1].Header? then Some(out[|out| - 1].kind)
    else LastHeader(out[..|out| - 1])
  }

  /** Every piece of data stands under a header of its own kind. */
  predicate Labelled(out: seq<Out>) {
    forall i :: 0 <= i < |out| && out[i].Data? ==> LastHeader(out[..i]) == Some(out[i].of)
  }

  predicate LabelsKept(f: Follow) {
    f.lastKind == LastHeader(f.out) && Labelled(f.out)
  }

  lemma LabelledSnoc(out: seq<Out>, o: Out)
    requires Labelled(out) && (o.Data? ==> LastHeader(out) == Some(o.of))
    ensures Labelled(out + [o])
    ensures LastHeader(out + [o]) == if o.Header? then Some(o.kind) else LastHeader(out)
  {
    var all := out + [o];
    assert all[..|out|] == out;
    forall i | 0 <= i < |all| && all[i].Data?
      ensures LastHeader(all[..i]) == Some(all[i].of)
    {
      assert all[..i] == out[..i];
      if i == |out| { assert out[..i] == out; }
    }
  }

  /** With several logs, every piece shown is under the header of its own log. */
  lemma {:induction false} EveryPieceIsLabelled(f: Follow, round: seq<Seen>)
    requires LabelsKept(f)
    ensures LabelsKept(VisitAll(f, true, round))
  {
    if round != [] {
      var n := |round| - 1;
      EveryPieceIsLabelled(f, round[..n]);
      LabelsKeptByVisit(VisitAll(f, true, round[..n]), round[n]);
    }
  }

  lemma LabelsKeptByVisit(f: Follow, seen: Seen)
    requires LabelsKept(f)
    ensures LabelsKept(Visit(f, true, seen))
  {
    if seen.stat.Some? && seen.read.Some? {
      var pos := Resume(f, seen.stat.value.0, seen.stat.value.1);
      var data := Data(seen.read.value.0, seen.kind, From(seen.read.value.1, pos));
      if Turns(f, true, seen.kind) {
        LabelledSnoc(f.out, Header(seen.kind));
        LabelledSnoc(f.out + [Header(seen.kind)], data);
        assert f.out + [Header(seen.kind)] + [data] == f.out + [Header(seen.kind), data];
      } else {
        LabelledSnoc(f.out, data);
      }
    }
  }

  /** A header stands only in front of data of its kind, where the data before it was of
      another. */
  predicate Chaptered(out: seq<Out>) {
    forall i :: 0 <= i < |out| && out[i].Header? ==>
      && i + 1 < |out| && out[i + 1].Data? && out[i + 1].of == out[i].kind
      && LastHeader(out[..i]) != Some(out[i].kind)
  }

  predicate NoHeaders(out: seq<Out>) {
    forall i :: 0 <= i < |out| ==> out[i].Data?
  }

  lemma ChapteredMore(out: seq<Out>, turns: bool, source: Ino, kind: string, bytes: Bytes)
    requires Chaptered(out) && (turns ==> LastHeader(out) != Some(kind))
    ensures Chaptered(out + Written(turns, source, kind, bytes))
  {
    var all := out + Written(turns, source, kind, bytes);
    forall i | 0 <= i < |all| && all[i].Header?
      ensures i + 1 < |all| && all[i + 1].Data? && all[i + 1].of == all[i].kind && LastHeader(all[..i]) != Some(all[i].kind)
    {
      if i < |out| {
        assert all[i] == out[i] && all[i + 1] == out[i + 1] && all[..i] == out[..i];
      } else {
        assert all[..i] == out;
      }
    }
  }

  /** With several logs a header is written exactly where the kind changes; with one log
      none is. */
  lemma {:induction false} HeadersExactlyAtChanges(f: Follow, headed: bool, round: seq<Seen>)
    requires if headed then LabelsKept(f) && Chaptered(f.out) else NoHeaders(f.out)
    ensures var f' := VisitAll(f, headed, round);
      if headed then Labelled(f'.out) && Chaptered(f'.out) else NoHeaders(f'.out)
  {
    if round != [] {
      var n := |round| - 1;
      var seen, g := round[n], VisitAll(f, headed, round[..n]);
      HeadersExactlyAtChanges(f, headed, round[..n]);
      if headed { EveryPieceIsLabelled(f, round[..n]); EveryPieceIsLabelled(f, round); }
      if headed && seen.stat.Some? && seen.read.Some? {
        var pos := Resume(g, seen.stat.value.0, seen.stat.value.1);
        ChapteredMore(g.out, Turns(g, headed, seen.kind), seen.read.value.0, seen.kind, From(seen.read.value.1, pos));
      }
    }
  }
}
