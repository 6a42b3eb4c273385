/**
 * The process forest of a run, drawn from fork edges. The edges may repeat, name unknown processes,
 * or form cycles; the drawing follows every simple path from a root, children in ascending order, and
 * stops at a line limit.
 */
module ProcForest {
  import opened Collections

  datatype Edge = Edge(parent: nat, child: nat, parentComm: string, childComm: string)
  datatype ExecIdentity = ExecIdentity(comm: string, exe: string)

  type Adjacency = map<nat, seq<nat>>
  type Path = seq<nat>

  const NOBODY := ExecIdentity("", "")

  // ---------- The graph ----------

  predicate Counts(e: Edge)
  {
    e.parent != 0 && e.child != 0 && e.parent != e.child
  }

  ghost function Children(edges: seq<Edge>, p: nat): (r: set<nat>)
  {
    set e | e in edges && Counts(e) && e.parent == p :: e.child
  }

  ghost function Parents(edges: seq<Edge>): (r: set<nat>)
  {
    set e | e in edges && Counts(e) :: e.parent
  }

  /** Parents that no edge at all, not even a self-loop, names as a child. */
  ghost function Roots(edges: seq<Edge>): (r: set<nat>)
  {
    set p | p in Parents(edges) && forall e :: e in edges ==> e.child != p
  }

  /** Each parent with its distinct children in ascending order. */
  ghost predicate IsAdjacency(edges: seq<Edge>, adj: Adjacency)
  {
    && adj.Keys == Parents(edges)
    && forall p :: p in adj ==> Enumerates(adj[p], Children(edges, p))
  }

  // ---------- All simple paths, in the order they are drawn ----------

  function Kids(adj: Adjacency, p: nat): (r: seq<nat>)
  {
    if p in adj then adj[p] else []
  }

  function Last(path: Path): (r: nat)
    requires path != []
  {
    path[|path| - 1]
  }

  /** Everything that is somebody's child. */
  ghost function Universe(adj: Adjacency): (r: set<nat>)
  {
    set p, i | p in adj && 0 <= i < |adj[p]| :: adj[p][i]
  }

  lemma StepShrinks(adj: Adjacency, path: Path, i: nat)
    requires path != [] && i < |Kids(adj, Last(path))| && Kids(adj, Last(path))[i] !in path
    ensures Universe(adj) - Elements(path + [Kids(adj, Last(path))[i]]) < Universe(adj) - Elements(path)
  {
    var c := Kids(adj, Last(path))[i];
    assert c in Universe(adj);
    assert c in Elements(path + [c]);
    assert forall x :: x in Elements(path) ==> x in Elements(path + [c]);
  }

  /** The simple paths that extend `path` through its children from the `i`th on, each before its extensions. */
  ghost function Below(adj: Adjacency, path: Path, i: nat): (r: seq<Path>)
    requires path != [] && i <= |Kids(adj, Last(path))|
    decreases Universe(adj) - Elements(path), |Kids(adj, Last(path))| - i
  {
    var kids := Kids(adj, Last(path));
    if i == |kids| then []
    else if kids[i] in path then Below(adj, path, i + 1)
    else
      StepShrinks(adj, path, i);
      [path + [kids[i]]] + Below(adj, path + [kids[i]], 0) + Below(adj, path, i + 1)
  }

  /** The same from the roots from the `i`th on. */
  ghost function Forest(adj: Adjacency, roots: seq<nat>, i: nat): (r: seq<Path>)
    requires i <= |roots|
    decreases |roots| - i
  {
    if i == |roots| then [] else [[roots[i]]] + Below(adj, [roots[i]], 0) + Forest(adj, roots, i + 1)
  }

  // ---------- The lines ----------

  function Decimal(n: nat): (r: string)
  {
    var d := ['0' + (n % 10) as char];
    if n < 10 then d else Decimal(n / 10) + d
  }

  ghost predicate IsDigits(s: string)
  {
    forall i :: 0 <= i < |s| ==> '0' <= s[i] <= '9'
  }

  /** The number that a string of digits denotes. */
  ghost function ValueOf(s: string): (n: nat)
    requires IsDigits(s)
  {
    if s == "" then 0 else 10 * ValueOf(s[..|s| - 1]) + (s[|s| - 1] - '0') as int
  }

  /** The digits denote the number, and there is no leading zero. */
  lemma {:induction false} DecimalDenotes(n: nat)
    ensures var s := Decimal(n);
            s != "" && IsDigits(s) && ValueOf(s) == n && (s[0] == '0' ==> s == "0")
  {
    var s := Decimal(n);
    if n >= 10 {
      DecimalDenotes(n / 10);
      assert s[..|s| - 1] == Decimal(n / 10);
    } else {
      assert s[..0] == "";
    }
  }

  function Identity(exec: map<nat, ExecIdentity>, pid: nat): (r: ExecIdentity)
  {
    if pid in exec then exec[pid] else NOBODY
  }

  function NodeLine(pid: nat, exec: map<nat, ExecIdentity>): (r: string)
  {
    var id := Identity(exec, pid);
    var text := (if id.comm == "" then "?" else id.comm) + "(" + Decimal(pid) + ")";
    if id.exe != "" then text + " " + id.exe else text
  }

  /** The command, the pid in brackets, and the executable if it is known; `?` for an unknown command. */
  lemma NodeLineShows(pid: nat, exec: map<nat, ExecIdentity>, comm: string, exe: string)
    requires pid in exec && exec[pid] == ExecIdentity(comm, exe)
    ensures comm != "" && exe != "" ==> NodeLine(pid, exec) == comm + "(" + Decimal(pid) + ")" + " " + exe
    ensures comm != "" && exe == "" ==> NodeLine(pid, exec) == comm + "(" + Decimal(pid) + ")"
    ensures comm == "" && exe != "" ==> NodeLine(pid, exec) == "?(" + Decimal(pid) + ")" + " " + exe
    ensures comm == "" && exe == "" ==> NodeLine(pid, exec) == "?(" + Decimal(pid) + ")"
  {
    assert "?" + "(" == "?(";
  }

  lemma NodeLineOfUnknown(pid: nat, exec: map<nat, ExecIdentity>)
    requires pid !in exec
    ensures NodeLine(pid, exec) == "?(" + Decimal(pid) + ")"
  {
    assert "?" + "(" == "?(";
  }

  /** The last child in the parent's list closes its arm, even when it is skipped. */
  predicate ClosesArm(adj: Adjacency, parent: nat, child: nat)
  {
    var kids := Kids(adj, parent);
    kids != [] && child == kids[|kids| - 1]
  }

  /** What is written in front of the arms of the children of `path`. */
  ghost function Continuation(adj: Adjacency, path: Path): (r: string)
    requires path != []
  {
    if |path| == 1 then ""
    else
      var up := path[..|path| - 1];
      Continuation(adj, up) + if ClosesArm(adj, Last(up), Last(path)) then "    " else "│   "
  }

  ghost function LineOf(adj: Adjacency, exec: map<nat, ExecIdentity>, path: Path): (r: string)
    requires path != []
  {
    if |path| == 1 then NodeLine(path[0], exec)
    else
      var up := path[..|path| - 1];
      Continuation(adj, up) + (if ClosesArm(adj, Last(up), Last(path)) then "└── " else "├── ")
      + NodeLine(Last(path), exec)
  }

  ghost predicate NonEmpty(ps: seq<Path>)
  {
    forall i :: 0 <= i < |ps| ==> ps[i] != []
  }

  ghost function LinesOf(adj: Adjacency, exec: map<nat, ExecIdentity>, ps: seq<Path>): (r: seq<string>)
    requires NonEmpty(ps)
    ensures |r| == |ps|
  {
    seq(|ps|, i requires 0 <= i < |ps| => LineOf(adj, exec, ps[i]))
  }

  ghost function Take<T>(s: seq<T>, n: nat): (r: seq<T>)
    ensures r <= s && |r| == if |s| <= n then |s| else n
  {
    if |s| <= n then s else s[..n]
  }

  /** Drawing a line, what is below it up to the limit, and then the rest is drawing all of it. */
  lemma TakeAgain<T>(lines: seq<T>, line: T, sub: seq<T>, rest: seq<T>, n: nat)
    ensures Take(Take(lines + [line] + sub, n) + rest, n) == Take(lines + ([line] + sub + rest), n)
  {
    hide Take;
    assert lines + ([line] + sub + rest) == (lines + [line] + sub) + rest;
    TakeTwice(lines + [line] + sub, rest, n);
  }

  lemma TakeTwice<T>(s: seq<T>, rest: seq<T>, n: nat)
    ensures Take(Take(s, n) + rest, n) == Take(s + rest, n)
  {
    if |s| > n {
      assert (s + rest)[..n] == s[..n] == (s[..n] + rest)[..n];
    }
  }

  lemma TakeFull<T>(lines: seq<T>, rest: seq<T>, n: nat)
    requires |lines| <= n
    ensures |lines| == n ==> Take(lines + rest, n) == lines
    ensures |lines| + 1 == n && rest != [] ==> Take(lines + rest, n) == lines + [rest[0]]
    ensures Take(lines, n) == lines && lines + [] == lines
  {
  }

  lemma {:induction false} BelowNonEmpty(adj: Adjacency, path: Path, i: nat)
    requires path != [] && i <= |Kids(adj, Last(path))|
    ensures NonEmpty(Below(adj, path, i))
    decreases Universe(adj) - Elements(path), |Kids(adj, Last(path))| - i
  {
    var kids := Kids(adj, Last(path));
    if i < |kids| {
      BelowNonEmpty(adj, path, i + 1);
      if kids[i] !in path {
        StepShrinks(adj, path, i);
        BelowNonEmpty(adj, path + [kids[i]], 0);
      }
    }
  }

  /** One child further: its own line, the lines below it, and the rest. */
  lemma LinesBelow(adj: Adjacency, exec: map<nat, ExecIdentity>, path: Path, i: nat)
    requires path != [] && i < |Kids(adj, Last(path))|
    ensures NonEmpty(Below(adj, path, i)) && NonEmpty(Below(adj, path, i + 1))
    ensures var c := Kids(adj, Last(path))[i];
            && NonEmpty(Below(adj, path + [c], 0))
            && LinesOf(adj, exec, Below(adj, path, i)) ==
               if c in path then LinesOf(adj, exec, Below(adj, path, i + 1))
               else [LineOf(adj, exec, path + [c])] + LinesOf(adj, exec, Below(adj, path + [c], 0))
                    + LinesOf(adj, exec, Below(adj, path, i + 1))
  {
    hide LinesOf;
    var next := path + [Kids(adj, Last(path))[i]];
    BelowNonEmpty(adj, path, i);
    BelowNonEmpty(adj, path, i + 1);
    BelowNonEmpty(adj, next, 0);
    if Last(next) !in path {
      LinesConcat(adj, exec, [next], Below(adj, next, 0));
      LinesConcat(adj, exec, [next] + Below(adj, next, 0), Below(adj, path, i + 1));
    }
  }

  lemma LinesConcat(adj: Adjacency, exec: map<nat, ExecIdentity>, a: seq<Path>, b: seq<Path>)
    requires NonEmpty(a) && NonEmpty(b)
    ensures NonEmpty(a + b) && LinesOf(adj, exec, a + b) == LinesOf(adj, exec, a) + LinesOf(adj, exec, b)
    ensures |a| == 1 ==> LinesOf(adj, exec, a) == [LineOf(adj, exec, a[0])]
  {
    hide LineOf;
  }

  // ---------- The shape of a line ----------

  /** The child is the largest of its parent's children. */
  ghost predicate LastChild(edges: seq<Edge>, p: nat, c: nat)
  {
    EdgeBetween(edges, p, c) && forall x: nat :: EdgeBetween(edges, p, x) ==> x <= c
  }

  /** An edge between two different processes, neither of them 0. */
  ghost predicate EdgeBetween(edges: seq<Edge>, p: nat, c: nat)
  {
    p != 0 && c != 0 && p != c && exists e :: e in edges && e.parent == p && e.child == c
  }

  lemma ClosesIsLast(edges: seq<Edge>, adj: Adjacency, p: nat, c: nat)
    requires IsAdjacency(edges, adj) && c in Kids(adj, p)
    ensures ClosesArm(adj, p, c) <==> LastChild(edges, p, c)
  {
    hide IsAdjacency;
    var kids := Kids(adj, p);
    KidsEnumerate(edges, adj, p);
    forall x: nat
      ensures x in kids <==> EdgeBetween(edges, p, x)
    {
      ChildIsEdge(edges, adj, p, x);
    }
    assert kids[|kids| - 1] in kids;
  }

  lemma KidsEnumerate(edges: seq<Edge>, adj: Adjacency, p: nat)
    requires IsAdjacency(edges, adj)
    ensures StrictlyAscending(Kids(adj, p))
  {
  }

  lemma ChildIsEdge(edges: seq<Edge>, adj: Adjacency, p: nat, c: nat)
    requires IsAdjacency(edges, adj)
    ensures c in Kids(adj, p) <==> EdgeBetween(edges, p, c)
  {
    KidsAreChildren(edges, adj, p, c);
    if EdgeBetween(edges, p, c) {
      var e :| e in edges && e.parent == p && e.child == c;
      assert Counts(e);
    }
  }

  /**
   * In front of the children of a path stand four characters for each process on it but the root: blank
   * where the process is its parent's last child, a bar where more children follow.
   */
  lemma {:induction false} ContinuationShape(edges: seq<Edge>, adj: Adjacency, path: Path, j: nat)
    requires IsAdjacency(edges, adj) && path != [] && Walk(adj, path)
    ensures |Continuation(adj, path)| == 4 * (|path| - 1)
    ensures 1 <= j < |path| ==>
            Continuation(adj, path)[4 * (j - 1)..4 * j] ==
            if LastChild(edges, path[j - 1], path[j]) then "    " else "│   "
  {
    hide IsAdjacency, ClosesArm, LastChild, Kids, Walk, Continuation;
    var n := |path| - 1;
    if n == 0 {
      NoContinuation(adj, path);
    } else {
      var up := path[..n];
      WalkUp(adj, path);
      ContinuationShape(edges, adj, up, j);
      ClosesIsLast(edges, adj, path[n - 1], path[n]);
      var block := if LastChild(edges, path[n - 1], path[n]) then "    " else "│   ";
      assert |block| == 4;
      if 1 <= j < n {
        BlockInFront(Continuation(adj, up), block, j);
      } else if j == n {
        LastBlock(Continuation(adj, up), block, n);
      }
    }
  }

  lemma NoContinuation(adj: Adjacency, path: Path)
    requires |path| == 1
    ensures Continuation(adj, path) == ""
  {
  }

  lemma WalkUp(adj: Adjacency, path: Path)
    requires |path| > 1 && Walk(adj, path)
    ensures var n := |path| - 1;
            && Walk(adj, path[..n]) && path[n] in Kids(adj, path[n - 1])
            && Continuation(adj, path)
            == Continuation(adj, path[..n]) + if ClosesArm(adj, path[n - 1], path[n]) then "    " else "│   "
  {
    hide ClosesArm, Kids;
    assert Last(path[..|path| - 1]) == path[|path| - 2];
  }

  lemma BlockInFront(c: string, block: string, j: nat)
    requires 1 <= j && 4 * j <= |c|
    ensures (c + block)[4 * (j - 1)..4 * j] == c[4 * (j - 1)..4 * j]
  {
  }

  lemma LastBlock(c: string, block: string, n: nat)
    requires n >= 1 && |c| == 4 * (n - 1) && |block| == 4
    ensures (c + block)[4 * (n - 1)..4 * n] == block
  {
  }

  /** A line: that much of its parent, an elbow for the last child or a tee, and the process itself. */
  lemma LineShape(edges: seq<Edge>, adj: Adjacency, exec: map<nat, ExecIdentity>, path: Path)
    requires IsAdjacency(edges, adj) && path != [] && Walk(adj, path)
    ensures var n := |path| - 1;
            LineOf(adj, exec, path) ==
            if n == 0 then NodeLine(path[0], exec)
            else Continuation(adj, path[..n])
                 + (if LastChild(edges, path[n - 1], path[n]) then "└── " else "├── ") + NodeLine(path[n], exec)
  {
    hide IsAdjacency, ClosesArm, LastChild, NodeLine, Continuation;
    var n := |path| - 1;
    if n > 0 {
      assert path[n] in Kids(adj, path[n - 1]) && Last(path[..n]) == path[n - 1];
      ClosesIsLast(edges, adj, path[n - 1], path[n]);
    }
  }

  // ---------- Names ----------

  function NameOn(e: Edge, pid: nat): (r: string)
  {
    if e.parent == pid && e.parentComm != "" then e.parentComm
    else if e.child == pid then e.childComm
    else ""
  }

  /** The first non-empty name that an edge gives to `pid`. */
  ghost function FirstName(edges: seq<Edge>, pid: nat): (r: string)
  {
    if edges == [] then ""
    else
      var earlier := FirstName(edges[..|edges| - 1], pid);
      if earlier != "" then earlier else NameOn(edges[|edges| - 1], pid)
  }

  /** The first edge that gives `pid` a name decides: as a parent's name if it is one there, else as a child's. */
  lemma {:induction false} FirstNameIs(edges: seq<Edge>, pid: nat)
    ensures FirstName(edges, pid) == "" <==>
            forall e :: e in edges ==>
                (e.parent == pid ==> e.parentComm == "") && (e.child == pid ==> e.childComm == "")
    ensures FirstName(edges, pid) != "" ==>
            exists i: nat :: i < |edges| && FirstName(edges[..i], pid) == ""
                             && FirstName(edges, pid) == if edges[i].parent == pid && edges[i].parentComm != ""
                                                         then edges[i].parentComm else edges[i].childComm
  {
    if edges != [] {
      var n := |edges| - 1;
      FirstNameIs(edges[..n], pid);
      assert edges == edges[..n] + [edges[n]];
      if FirstName(edges[..n], pid) != "" {
        var i: nat :| i < n && FirstName(edges[..n][..i], pid) == ""
                      && FirstName(edges[..n], pid) == if edges[..n][i].parent == pid && edges[..n][i].parentComm != ""
                                                       then edges[..n][i].parentComm else edges[..n][i].childComm;
        assert edges[..n][..i] == edges[..i] && edges[..n][i] == edges[i];
      }
    }
  }

  /** A known process keeps its identity; any other goes by its first name, if it has one. */
  ghost predicate Seeded(edges: seq<Edge>, known: map<nat, ExecIdentity>, exec: map<nat, ExecIdentity>)
  {
    forall pid ::
      && Identity(exec, pid) == (if pid in known then known[pid] else ExecIdentity(FirstName(edges, pid), ""))
      && (pid in exec <==> pid in known || FirstName(edges, pid) != "")
  }

  /** What one more edge adds: a first name for each of its ends that has none yet. */
  ghost function Learned(exec: map<nat, ExecIdentity>, pid: nat, name: string): (r: map<nat, ExecIdentity>)
  {
    if pid in exec || name == "" then exec else exec[pid := ExecIdentity(name, "")]
  }

  lemma SeededByNone(known: map<nat, ExecIdentity>)
    ensures Seeded([], known, known)
  {
  }

  lemma SeededOneMore(edges: seq<Edge>, e: Edge, known: map<nat, ExecIdentity>, exec: map<nat, ExecIdentity>)
    requires Seeded(edges, known, exec)
    ensures Seeded(edges + [e], known, Learned(Learned(exec, e.parent, e.parentComm), e.child, e.childComm))
  {
    hide FirstName;
    forall pid: nat
      ensures FirstName(edges + [e], pid)
           == if FirstName(edges, pid) != "" then FirstName(edges, pid) else NameOn(e, pid)
    {
      FirstNameSnoc(edges, e, pid);
    }
  }

  lemma FirstNameSnoc(edges: seq<Edge>, e: Edge, pid: nat)
    ensures FirstName(edges + [e], pid)
         == if FirstName(edges, pid) != "" then FirstName(edges, pid) else NameOn(e, pid)
  {
    assert (edges + [e])[..|edges|] == edges;
  }

  method SeedExecFromEdges(edges: seq<Edge>, known: map<nat, ExecIdentity>) returns (exec: map<nat, ExecIdentity>)
    ensures Seeded(edges, known, exec)
  {
    hide Seeded;
    SeededByNone(known);
    exec := known;
    for i := 0 to |edges|
      invariant Seeded(edges[..i], known, exec)
    {
      var e := edges[i];
      assert edges[..i + 1] == edges[..i] + [e];
      SeededOneMore(edges[..i], e, known, exec);
      if e.parent !in exec && e.parentComm != "" {
        exec := exec[e.parent := ExecIdentity(e.parentComm, "")];
      }
      if e.child !in exec && e.childComm != "" {
        exec := exec[e.child := ExecIdentity(e.childComm, "")];
      }
    }
    assert edges[..|edges|] == edges;
  }

  /** A process with no identity is nowhere named. */
  lemma {:induction false} NamelessEverywhere(edges: seq<Edge>, pid: nat, e: Edge)
    requires FirstName(edges, pid) == "" && e in edges
    ensures NameOn(e, pid) == ""
  {
    if e != edges[|edges| - 1] {
      NamelessEverywhere(edges[..|edges| - 1], pid, e);
    }
  }

  /** Edge `i` is the newest from `p` to `c`. */
  ghost predicate Newest(edges: seq<Edge>, p: nat, c: nat, i: nat)
  {
    && i < |edges| && edges[i].parent == p && edges[i].child == c
    && forall j :: i < j < |edges| ==> edges[j].parent != p || edges[j].child != c
  }

  /** The child's name on the newest edge from `p` to `c`, or nothing when there is no such edge. */
  method EdgeChildComm(edges: seq<Edge>, p: nat, c: nat) returns (comm: string)
    ensures (exists i: nat :: Newest(edges, p, c, i) && comm == edges[i].childComm)
            || (comm == "" && forall e :: e in edges ==> e.parent != p || e.child != c)
  {
    for i := |edges| downto 0
      invariant forall j :: i <= j < |edges| ==> edges[j].parent != p || edges[j].child != c
    {
      if edges[i].parent == p && edges[i].child == c {
        assert Newest(edges, p, c, i);
        return edges[i].childComm;
      }
    }
    return "";
  }

  // ---------- The drawing as the source runs it ----------

  class Drawing {
    const edges: seq<Edge>
    const adj: Adjacency
    const maxLines: nat
    ghost const known: map<nat, ExecIdentity>
    ghost const seeded: map<nat, ExecIdentity>
    var lines: seq<string>
    var pathSet: set<nat>
    var exec: map<nat, ExecIdentity>

    constructor (edges: seq<Edge>, adj: Adjacency, ghost known: map<nat, ExecIdentity>,
                 exec: map<nat, ExecIdentity>, maxLines: nat)
      requires IsAdjacency(edges, adj) && Seeded(edges, known, exec) && maxLines > 0
      ensures Valid() && lines == [] && this.edges == edges && this.adj == adj
      ensures this.maxLines == maxLines && seeded == exec
    {
      this.edges, this.adj, this.maxLines, this.known, this.seeded := edges, adj, maxLines, known, exec;
      this.lines, this.pathSet, this.exec := [], {}, exec;
    }

    /** Identities are added on the way, but none that changes a line. */
    ghost predicate Valid()
      reads this
    {
      && IsAdjacency(edges, adj) && Seeded(edges, known, seeded) && maxLines > 0 && |lines| <= maxLines
      && (forall pid :: Identity(exec, pid) == Identity(seeded, pid))
      && (forall pid :: pid in seeded ==> pid in exec)
    }

    /** A process not yet known gets the name on its edge, which is always empty. */
    method Learn(pid: nat, c: nat)
      requires Valid()
      modifies this`exec
      ensures Valid()
    {
      if c !in exec {
        var comm := EdgeChildComm(edges, pid, c);
        assert comm == "" by {
          if i: nat :| Newest(edges, pid, c, i) && comm == edges[i].childComm {
            assert FirstName(edges, c) == "";
            NamelessEverywhere(edges, c, edges[i]);
          }
        }
        exec := exec[c := ExecIdentity(comm, "")];
      }
    }

    method EmitSubtree(pid: nat, continuation: string, ghost path: Path)
      requires Valid() && |lines| < maxLines
      requires path != [] && Last(path) == pid && pathSet == Elements(path)
      requires continuation == Continuation(adj, path)
      modifies this
      ensures Valid() && pathSet == Elements(path)
      ensures NonEmpty(Below(adj, path, 0))
      ensures lines == Take(old(lines) + LinesOf(adj, seeded, Below(adj, path, 0)), maxLines)
      decreases Universe(adj) - Elements(path)
    {
      hide Below, LineOf, LinesOf, Continuation, Elements, Take, NodeLine, NonEmpty, Seeded;
      hide IsAdjacency, ClosesArm, StrictlyAscending;
      var ch := if pid in adj then adj[pid] else [];
      ghost var before := lines;
      BelowNonEmpty(adj, path, 0);
      for i := 0 to |ch|
        invariant Valid() && pathSet == Elements(path)
        invariant NonEmpty(Below(adj, path, i))
        invariant Take(lines + LinesOf(adj, seeded, Below(adj, path, i)), maxLines)
               == Take(before + LinesOf(adj, seeded, Below(adj, path, 0)), maxLines)
      {
        if |lines| >= maxLines {
          TakeFull(lines, LinesOf(adj, seeded, Below(adj, path, i)), maxLines);
          return;
        }
        var c := ch[i];
        LinesBelow(adj, seeded, path, i);
        PathGrows(path, c);
        if c in pathSet {
          continue;
        }
        Learn(pid, c);
        var last := i == |ch| - 1;
        KidsAscending(edges, adj, pid);
        NextLine(adj, seeded, exec, path, i);
        pathSet := pathSet + {c};
        TakeFull(lines, LinesOf(adj, seeded, Below(adj, path, i)), maxLines);
        ghost var drawn := lines;
        lines := lines + [continuation + (if last then "└── " else "├── ") + NodeLine(c, exec)];
        if |lines| >= maxLines {
          pathSet := pathSet - {c};
          return;
        }
        StepShrinks(adj, path, i);
        EmitSubtree(c, continuation + (if last then "    " else "│   "), path + [c]);
        TakeAgain(drawn, LineOf(adj, seeded, path + [c]), LinesOf(adj, seeded, Below(adj, path + [c], 0)),
                  LinesOf(adj, seeded, Below(adj, path, i + 1)), maxLines);
        pathSet := pathSet - {c};
      }
      NothingBelow(adj, seeded, path);
      TakeFull(lines, [], maxLines);
    }

    method DrawRoots(roots: seq<nat>)
      requires Valid() && lines == []
      modifies this
      ensures Valid() && NonEmpty(Forest(adj, roots, 0))
      ensures lines == Take(LinesOf(adj, seeded, Forest(adj, roots, 0)), maxLines)
    {
      hide Below, Forest, LinesOf, Take, NodeLine, NonEmpty, Seeded, IsAdjacency;
      LinesOfForest(adj, seeded, roots, 0);
      ghost var all := LinesOf(adj, seeded, Forest(adj, roots, 0));
      assert lines + all == all;
      for i := 0 to |roots|
        invariant Valid() && NonEmpty(Forest(adj, roots, i))
        invariant Take(lines + LinesOf(adj, seeded, Forest(adj, roots, i)), maxLines) == Take(all, maxLines)
      {
        ghost var rest := LinesOf(adj, seeded, Forest(adj, roots, i));
        TakeFull(lines, rest, maxLines);
        if |lines| >= maxLines {
          return;
        }
        LinesOfForest(adj, seeded, roots, i);
        var r := roots[i];
        if r !in exec {
          exec := exec[r := NOBODY];
        }
        pathSet := {r};
        ghost var drawn := lines;
        SameLine(r, exec, seeded);
        lines := lines + [NodeLine(r, exec)];
        if |lines| >= maxLines {
          return;
        }
        PathOfOne(r);
        EmitSubtree(r, "", [r]);
        TakeAgain(drawn, NodeLine(r, seeded), LinesOf(adj, seeded, Below(adj, [r], 0)),
                  LinesOf(adj, seeded, Forest(adj, roots, i + 1)), maxLines);
      }
      LinesOfForest(adj, seeded, roots, |roots|);
      TakeFull(lines, [], maxLines);
    }
  }

  lemma SameLine(pid: nat, exec: map<nat, ExecIdentity>, seeded: map<nat, ExecIdentity>)
    requires Identity(exec, pid) == Identity(seeded, pid)
    ensures NodeLine(pid, exec) == NodeLine(pid, seeded)
  {
  }

  lemma PathOfOne(r: nat)
    ensures Elements([r]) == {r}
  {
  }

  /** One root further: its own line, the lines below it, and the rest. */
  lemma {:induction false} LinesOfForest(adj: Adjacency, exec: map<nat, ExecIdentity>, roots: seq<nat>, i: nat)
    requires i <= |roots|
    ensures NonEmpty(Forest(adj, roots, i))
    ensures i == |roots| ==> LinesOf(adj, exec, Forest(adj, roots, i)) == []
    ensures i < |roots| ==>
            && NonEmpty(Below(adj, [roots[i]], 0)) && NonEmpty(Forest(adj, roots, i + 1))
            && LinesOf(adj, exec, Forest(adj, roots, i)) ==
               [NodeLine(roots[i], exec)] + LinesOf(adj, exec, Below(adj, [roots[i]], 0))
               + LinesOf(adj, exec, Forest(adj, roots, i + 1))
    decreases |roots| - i
  {
    hide NodeLine, Below;
    if i < |roots| {
      var r := [roots[i]];
      LinesOfForest(adj, exec, roots, i + 1);
      BelowNonEmpty(adj, r, 0);
      LinesConcat(adj, exec, [r], Below(adj, r, 0));
      LinesConcat(adj, exec, [r] + Below(adj, r, 0), Forest(adj, roots, i + 1));
    }
  }

  lemma LinesStartWithRoots(adj: Adjacency, exec: map<nat, ExecIdentity>, roots: seq<nat>, n: nat)
    requires n > 0
    ensures NonEmpty(Forest(adj, roots, 0))
    ensures Take(LinesOf(adj, exec, Forest(adj, roots, 0)), n) == [] <==> roots == []
  {
    LinesOfForest(adj, exec, roots, 0);
  }

  lemma PathGrows(path: Path, c: nat)
    ensures c in Elements(path) <==> c in path
    ensures Elements(path + [c]) == Elements(path) + {c}
    ensures c !in path ==> Elements(path + [c]) - {c} == Elements(path)
  {
  }

  lemma KidsAscending(edges: seq<Edge>, adj: Adjacency, p: nat)
    requires IsAdjacency(edges, adj)
    ensures StrictlyAscending(Kids(adj, p))
  {
  }

  lemma NothingBelow(adj: Adjacency, exec: map<nat, ExecIdentity>, path: Path)
    requires path != []
    ensures Below(adj, path, |Kids(adj, Last(path))|) == []
    ensures LinesOf(adj, exec, []) == []
  {
  }

  lemma NextLine(adj: Adjacency, seeded: map<nat, ExecIdentity>, exec: map<nat, ExecIdentity>, path: Path, i: nat)
    requires path != [] && i < |Kids(adj, Last(path))| && StrictlyAscending(Kids(adj, Last(path)))
    requires forall pid :: Identity(exec, pid) == Identity(seeded, pid)
    ensures var kids := Kids(adj, Last(path));
            var next := path + [kids[i]];
            && Continuation(adj, next) ==
               Continuation(adj, path) + (if i == |kids| - 1 then "    " else "│   ")
            && LineOf(adj, seeded, next) ==
               Continuation(adj, path) + (if i == |kids| - 1 then "└── " else "├── ") + NodeLine(kids[i], exec)
  {
    hide StrictlyAscending, ClosesArm, NodeLine;
    var kids := Kids(adj, Last(path));
    var next := path + [kids[i]];
    assert next[..|next| - 1] == path && Last(next) == kids[i];
    LastCloses(adj, Last(path), i);
    SameNodeLine(kids[i], seeded, exec);
  }

  lemma LastCloses(adj: Adjacency, pid: nat, i: nat)
    requires i < |Kids(adj, pid)| && StrictlyAscending(Kids(adj, pid))
    ensures ClosesArm(adj, pid, Kids(adj, pid)[i]) <==> i == |Kids(adj, pid)| - 1
  {
  }

  lemma SameNodeLine(pid: nat, a: map<nat, ExecIdentity>, b: map<nat, ExecIdentity>)
    requires Identity(a, pid) == Identity(b, pid)
    ensures NodeLine(pid, a) == NodeLine(pid, b)
  {
  }

  // ---------- Building the graph ----------

  ghost predicate HasEdge(edges: seq<Edge>, from: nat, p: nat, c: nat)
  {
    exists k :: from <= k < |edges| && Counts(edges[k]) && edges[k].parent == p && edges[k].child == c
  }

  /** The reverse loop that keeps the newest of each parent and child pair. */
  method CollectChildren(edges: seq<Edge>) returns (adj: Adjacency)
    ensures forall p: nat, c: nat :: p in adj && c in adj[p] <==> HasEdge(edges, 0, p, c)
    ensures forall p :: p in adj ==> adj[p] != []
  {
    adj := map[];
    var seen: set<(nat, nat)> := {};
    for i := |edges| downto 0
      invariant forall p: nat, c: nat :: (p, c) in seen <==> HasEdge(edges, i, p, c)
      invariant forall p: nat, c: nat :: p in adj && c in adj[p] <==> (p, c) in seen
      invariant forall p :: p in adj ==> adj[p] != []
    {
      var p, c := edges[i].parent, edges[i].child;
      if Counts(edges[i]) {
        assert HasEdge(edges, i, p, c);
        if (p, c) !in seen {
          seen := seen + {(p, c)};
          adj := adj[p := Kids(adj, p) + [c]];
        }
      }
    }
  }

  method SortChildren(raw: Adjacency) returns (adj: Adjacency)
    ensures adj.Keys == raw.Keys
    ensures forall p :: p in adj ==> Enumerates(adj[p], Elements(raw[p]))
  {
    adj := map[];
    var todo := raw.Keys;
    while todo != {}
      invariant todo <= raw.Keys && adj.Keys == raw.Keys - todo
      invariant forall p :: p in adj ==> Enumerates(adj[p], Elements(raw[p]))
      decreases todo
    {
      hide Elements, Enumerates;
      var p :| p in todo;
      todo := todo - {p};
      var ch := SortSet(Elements(raw[p]));
      adj := adj[p := ch];
    }
  }

  method BuildAdjacency(edges: seq<Edge>) returns (adj: Adjacency)
    ensures IsAdjacency(edges, adj)
  {
    var raw := CollectChildren(edges);
    adj := SortChildren(raw);
    forall p | p in raw
      ensures Elements(raw[p]) == Children(edges, p) && p in Parents(edges)
    {
      forall c
        ensures c in raw[p] <==> c in Children(edges, p)
      {
        EdgeInChildren(edges, p, c);
      }
      EdgeInChildren(edges, p, raw[p][0]);
    }
    forall p | p in Parents(edges)
      ensures p in raw
    {
      var e :| e in edges && Counts(e) && e.parent == p;
      EdgeInChildren(edges, p, e.child);
    }
  }

  lemma EdgeInChildren(edges: seq<Edge>, p: nat, c: nat)
    ensures HasEdge(edges, 0, p, c) <==> c in Children(edges, p)
    ensures c in Children(edges, p) ==> p in Parents(edges)
  {
    if HasEdge(edges, 0, p, c) {
      var k :| 0 <= k < |edges| && Counts(edges[k]) && edges[k].parent == p && edges[k].child == c;
      assert edges[k] in edges;
    }
  }

  method FindRoots(edges: seq<Edge>, adj: Adjacency) returns (roots: seq<nat>)
    requires adj.Keys == Parents(edges)
    ensures Enumerates(roots, Roots(edges))
  {
    var childSet := set e | e in edges && e.child != 0 :: e.child;
    roots := SortSet(adj.Keys - childSet);
    assert adj.Keys - childSet == Roots(edges);
  }

  const NO_ROOTS := "(unable to derive roots from sampled edges)"

  /** The forest: the first `maxLines` lines of all simple paths from the roots. */
  method FormatForestLines(edges: seq<Edge>, exec: map<nat, ExecIdentity>, maxLines: int)
    returns (lines: seq<string>, ghost adj: Adjacency, ghost roots: seq<nat>, ghost names: map<nat, ExecIdentity>)
    ensures maxLines <= 0 ==> lines == []
    ensures maxLines > 0 ==>
            && IsAdjacency(edges, adj) && Enumerates(roots, Roots(edges)) && Seeded(edges, exec, names)
            && NonEmpty(Forest(adj, roots, 0))
            && lines == if roots == [] && edges != [] then ["(unable to derive roots from sampled edges)"]
                        else Take(LinesOf(adj, names, Forest(adj, roots, 0)), maxLines)
  {
    lines, adj, roots, names := [], map[], [], map[];
    if maxLines <= 0 {
      return;
    }
    hide Below, LineOf, LinesOf, Take, NonEmpty, Enumerates, IsAdjacency, Seeded;
    var execCopy := SeedExecFromEdges(edges, exec);
    var graph := BuildAdjacency(edges);
    assert graph.Keys == Parents(edges) by { AdjacencyKeys(edges, graph); }
    var rs := FindRoots(edges, graph);
    var d := new Drawing(edges, graph, exec, execCopy, maxLines);
    d.DrawRoots(rs);
    lines, adj, roots, names := d.lines, graph, rs, execCopy;
    LinesStartWithRoots(graph, execCopy, rs, maxLines);
    if |lines| == 0 && |edges| > 0 {
      lines := [NO_ROOTS];
    }
  }

  lemma AdjacencyKeys(edges: seq<Edge>, adj: Adjacency)
    requires IsAdjacency(edges, adj)
    ensures adj.Keys == Parents(edges)
  {
  }

  /** Nothing in the drawing depends on the order in which maps were walked. */
  lemma GraphIsDetermined(edges: seq<Edge>, adj: Adjacency, adj': Adjacency, roots: seq<nat>, roots': seq<nat>)
    requires IsAdjacency(edges, adj) && IsAdjacency(edges, adj')
    requires Enumerates(roots, Roots(edges)) && Enumerates(roots', Roots(edges))
    ensures adj == adj' && roots == roots'
  {
    hide Enumerates, Children;
    forall p | p in adj
      ensures adj[p] == adj'[p]
    {
      EnumerationUnique(adj[p], adj'[p], Children(edges, p));
    }
    EnumerationUnique(roots, roots', Roots(edges));
  }

  // ---------- What the forest enumerates ----------

  /** Each process on the path is a child of the one before. */
  ghost predicate Walk(adj: Adjacency, q: Path)
  {
    forall j :: 1 <= j < |q| ==> q[j] in Kids(adj, q[j - 1])
  }

  ghost predicate SimplePath(adj: Adjacency, q: Path)
  {
    q != [] && NoRepeats(q) && Walk(adj, q)
  }

  /** `q` goes on from `path` through a child from the `i`th on. */
  ghost predicate GoesOn(adj: Adjacency, path: Path, i: nat, q: Path)
    requires path != [] && i <= |Kids(adj, Last(path))|
  {
    path < q && SimplePath(adj, q) && q[|path|] in Kids(adj, Last(path))[i..]
  }

  lemma ExtendsOne(adj: Adjacency, path: Path, c: nat)
    requires SimplePath(adj, path) && c in Kids(adj, Last(path)) && c !in path
    ensures SimplePath(adj, path + [c])
  {
  }

  /** Going on at the `i`th child means taking it, taking it and going on from there, or taking a later one. */
  lemma GoesOnByCase(adj: Adjacency, path: Path, i: nat, q: Path)
    requires SimplePath(adj, path) && i < |Kids(adj, Last(path))|
    ensures var c := Kids(adj, Last(path))[i];
            GoesOn(adj, path, i, q) <==>
            || GoesOn(adj, path, i + 1, q)
            || (c !in path && (q == path + [c] || GoesOn(adj, path + [c], 0, q)))
  {
    var kids := Kids(adj, Last(path));
    var c := kids[i];
    assert kids[i..] == [c] + kids[i + 1..];
    if c !in path {
      ExtendsOne(adj, path, c);
    }
    if path < q && SimplePath(adj, q) && q[|path|] == c {
      assert q[..|path| + 1] == path + [c];
      assert forall k :: 0 <= k < |path| ==> path[k] == q[k] != q[|path|];
      if |q| > |path| + 1 {
        assert q[|path| + 1] in Kids(adj, q[|path|]);
        assert Kids(adj, c)[0..] == Kids(adj, c);
      }
    }
  }

  lemma {:induction false} BelowMembers(adj: Adjacency, path: Path, i: nat, q: Path)
    requires SimplePath(adj, path) && i <= |Kids(adj, Last(path))|
    ensures q in Below(adj, path, i) <==> GoesOn(adj, path, i, q)
    decreases Universe(adj) - Elements(path), |Kids(adj, Last(path))| - i
  {
    hide NoRepeats, Walk, GoesOn, Universe, Elements;
    var kids := Kids(adj, Last(path));
    if i == |kids| {
      NowhereToGo(adj, path, q);
    } else {
      GoesOnByCase(adj, path, i, q);
      BelowMembers(adj, path, i + 1, q);
      if kids[i] !in path {
        StepShrinks(adj, path, i);
        ExtendsOne(adj, path, kids[i]);
        BelowMembers(adj, path + [kids[i]], 0, q);
      }
    }
  }

  lemma NowhereToGo(adj: Adjacency, path: Path, q: Path)
    requires path != []
    ensures !GoesOn(adj, path, |Kids(adj, Last(path))|, q)
  {
  }

  lemma {:induction false} ForestMembers(adj: Adjacency, roots: seq<nat>, i: nat, q: Path)
    requires i <= |roots|
    ensures q in Forest(adj, roots, i) <==> SimplePath(adj, q) && q[0] in roots[i..]
    decreases |roots| - i
  {
    if i < |roots| {
      var r := roots[i];
      assert roots[i..] == [r] + roots[i + 1..];
      ForestMembers(adj, roots, i + 1, q);
      assert SimplePath(adj, [r]);
      BelowMembers(adj, [r], 0, q);
      assert Kids(adj, r)[0..] == Kids(adj, r);
      if SimplePath(adj, q) && q[0] == r && q != [r] {
        assert [r] < q && q[1] in Kids(adj, q[0]);
      }
    }
  }

  // ---------- In which order ----------

  /** Paths as words: at the first difference the smaller process comes first, and a path precedes its extensions. */
  ghost predicate Before(p: Path, q: Path)
  {
    exists k: nat :: SplitsAt(p, q, k)
  }

  ghost predicate SplitsAt(p: Path, q: Path, k: nat)
  {
    k <= |p| && k < |q| && p[..k] == q[..k] && (k == |p| || p[k] < q[k])
  }

  ghost predicate InOrder(ps: seq<Path>)
  {
    forall i, j :: 0 <= i < j < |ps| ==> Before(ps[i], ps[j])
  }

  lemma InOrderConcat(a: seq<Path>, b: seq<Path>)
    requires InOrder(a) && InOrder(b)
    requires forall p, q :: p in a && q in b ==> Before(p, q)
    ensures InOrder(a + b)
  {
    forall i, j | 0 <= i < j < |a + b|
      ensures Before((a + b)[i], (a + b)[j])
    {
      if i < |a| <= j {
        assert a[i] in a && b[j - |a|] in b;
      }
    }
  }

  lemma BlocksInOrder(adj: Adjacency, path: Path, i: nat)
    requires SimplePath(adj, path) && i < |Kids(adj, Last(path))| && StrictlyAscending(Kids(adj, Last(path)))
    requires Kids(adj, Last(path))[i] !in path
    ensures var next := path + [Kids(adj, Last(path))[i]];
            && (forall q :: q in Below(adj, next, 0) ==> Before(next, q))
            && forall p, q :: (p == next || p in Below(adj, next, 0)) && q in Below(adj, path, i + 1) ==> Before(p, q)
  {
    hide Below;
    var kids := Kids(adj, Last(path));
    var next := path + [kids[i]];
    ExtendsOne(adj, path, kids[i]);
    forall q | q in Below(adj, next, 0)
      ensures Before(next, q) && next < q
    {
      BelowMembers(adj, next, 0, q);
      assert SplitsAt(next, q, |next|);
    }
    forall p, q | (p == next || p in Below(adj, next, 0)) && q in Below(adj, path, i + 1)
      ensures Before(p, q)
    {
      BelowMembers(adj, path, i + 1, q);
      assert p[..|path|] == path == q[..|path|] && p[|path|] == kids[i] < q[|path|];
      assert SplitsAt(p, q, |path|);
    }
  }

  lemma {:induction false} BelowInOrder(edges: seq<Edge>, adj: Adjacency, path: Path, i: nat)
    requires IsAdjacency(edges, adj) && SimplePath(adj, path) && i <= |Kids(adj, Last(path))|
    ensures InOrder(Below(adj, path, i))
    decreases Universe(adj) - Elements(path), |Kids(adj, Last(path))| - i
  {
    hide IsAdjacency, NoRepeats, Walk, Before, Universe, Elements;
    var kids := Kids(adj, Last(path));
    if i < |kids| {
      BelowInOrder(edges, adj, path, i + 1);
      if kids[i] !in path {
        var next := path + [kids[i]];
        KidsAscending(edges, adj, Last(path));
        StepShrinks(adj, path, i);
        ExtendsOne(adj, path, kids[i]);
        BelowInOrder(edges, adj, next, 0);
        BlocksInOrder(adj, path, i);
        InOrderConcat([next], Below(adj, next, 0));
        InOrderConcat([next] + Below(adj, next, 0), Below(adj, path, i + 1));
      }
    }
  }

  lemma {:induction false} ForestInOrder(edges: seq<Edge>, adj: Adjacency, roots: seq<nat>, i: nat)
    requires IsAdjacency(edges, adj) && StrictlyAscending(roots) && i <= |roots|
    ensures InOrder(Forest(adj, roots, i))
    decreases |roots| - i
  {
    hide IsAdjacency, Below;
    if i < |roots| {
      var r := [roots[i]];
      var block, rest := [r] + Below(adj, r, 0), Forest(adj, roots, i + 1);
      ForestInOrder(edges, adj, roots, i + 1);
      assert SimplePath(adj, r);
      BelowInOrder(edges, adj, r, 0);
      forall q | q in Below(adj, r, 0)
        ensures Before(r, q) && q != [] && q[0] == roots[i]
      {
        BelowMembers(adj, r, 0, q);
        assert SplitsAt(r, q, 1);
      }
      InOrderConcat([r], Below(adj, r, 0));
      forall p, q | p in block && q in rest
        ensures Before(p, q)
      {
        ForestMembers(adj, roots, i + 1, q);
        assert p[0] == roots[i] < q[0];
        assert SplitsAt(p, q, 0);
      }
      InOrderConcat(block, rest);
    }
  }

  /** A parent in some edge that counts, and no edge at all names it as a child. */
  ghost predicate IsRoot(edges: seq<Edge>, r: nat)
  {
    (exists c: nat :: EdgeBetween(edges, r, c)) && forall e :: e in edges ==> e.child != r
  }

  lemma RootsAre(edges: seq<Edge>, r: nat)
    ensures r in Roots(edges) <==> IsRoot(edges, r)
  {
    if c: nat :| EdgeBetween(edges, r, c) {
      var e :| e in edges && e.parent == r && e.child == c;
      assert Counts(e);
    }
    if e :| e in edges && Counts(e) && e.parent == r {
      assert EdgeBetween(edges, r, e.child);
    }
  }

  /**
   * The drawn paths are, without repetition and in word order, all the simple paths of the edge list
   * that start at a root: distinct processes, each a child of the one before. Since the order is strict,
   * this fixes the sequence, and with it every line of the drawing.
   */
  lemma ForestIsAllSimplePaths(edges: seq<Edge>, adj: Adjacency, roots: seq<nat>)
    requires IsAdjacency(edges, adj) && Enumerates(roots, Roots(edges))
    ensures InOrder(Forest(adj, roots, 0))
    ensures forall q :: q in Forest(adj, roots, 0) <==>
              && q != [] && IsRoot(edges, q[0]) && NoRepeats(q)
              && forall j :: 1 <= j < |q| ==> EdgeBetween(edges, q[j - 1], q[j])
  {
    hide IsRoot, EdgeBetween, Roots;
    ForestInOrder(edges, adj, roots, 0);
    forall q: Path
      ensures q in Forest(adj, roots, 0) <==>
              && q != [] && IsRoot(edges, q[0]) && NoRepeats(q)
              && forall j :: 1 <= j < |q| ==> EdgeBetween(edges, q[j - 1], q[j])
    {
      ForestMembers(adj, roots, 0, q);
      assert roots[0..] == roots;
      if q != [] {
        RootsAre(edges, q[0]);
      }
      forall p: nat, c: nat
        ensures c in Kids(adj, p) <==> EdgeBetween(edges, p, c)
      {
        ChildIsEdge(edges, adj, p, c);
      }
    }
  }

  lemma KidsAreChildren(edges: seq<Edge>, adj: Adjacency, p: nat, c: nat)
    requires IsAdjacency(edges, adj)
    ensures c in Kids(adj, p) <==> c in Children(edges, p)
  {
  }
}
