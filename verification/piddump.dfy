/**
 * piddump.c: lists, for every process, the open files, IPv4 sockets, pipes
 * and AppleTalk descriptors, one line each. Every libproc call is replaced by
 * its result, given as input: the process list, the descriptor table and
 * the reply to each per-descriptor query. The sizes of the macOS records the
 * queries fill are an input too (`RecordSizes`), since only their equality
 * with the returned byte count matters.
 */
module PidDump {
  import opened Wrappers
  import Numerals

  /** `PROC_PIDLISTFD_SIZE`: the bytes of one `proc_fdinfo` table entry. */
  const ListFdSize: nat := 8
  /** `sizeof(pid_t)`. */
  const PidBytes: nat := 4

  /** `PROX_FDTYPE_*` values of `proc_fdtype`. */
  const FdTypeAtalk: int := 0
  const FdTypeVnode: int := 1
  const FdTypeSocket: int := 2
  const FdTypePipe: int := 6

  /** `AF_INET` and `SOCKINFO_TCP`. */
  const AfInet: int := 2
  const SockInfoTcp: int := 2

  /** The byte counts a successful query returns: the sizes of the records it fills. */
  datatype RecordSizes = RecordSizes(vnodePath: int, socket: int, pipe: int, atalk: int)

  /** One `proc_fdinfo` entry: `proc_fd` and `proc_fdtype`. */
  datatype Descriptor = Descriptor(fd: int, fdType: int)

  /**
   * The parts of `socket_fdinfo` that are read. `soi_proto` is a union whose
   * `pri_in` and `pri_tcp.tcpsi_ini` members both start at its first byte, so
   * the TCP and non-TCP branches read the same `insi_lport`/`insi_fport` ints.
   */
  datatype SocketInfo = SocketInfo(family: int, kind: int, lport: int, fport: int)

  /**
   * What each query would return for one descriptor: the byte count and the
   * record contents (`vip_path`, the socket record, `pipe_peerhandle`).
   */
  datatype Replies = Replies(
    vnodeSize: int, path: string,
    socketSize: int, socket: SocketInfo,
    pipeSize: int, peer: nat,
    atalkSize: int)

  /** A table entry together with the replies its queries get. */
  datatype Entry = Entry(desc: Descriptor, replies: Replies)

  /** Which detail query the dispatch issues for a descriptor. */
  datatype Query = VnodePathQuery | SocketQuery | PipeQuery | AtalkQuery

  /** Why the whole run stops. */
  datatype Fatal = ListFdsFailed | MallocFailed

  /** One `printf`/`puts` of the program. */
  datatype Line =
    | Header(name: string, pid: int)
    | File(fd: int, path: string)
    | Listen(fd: int, tcp: bool, local: nat)
    | Open(fd: int, tcp: bool, local: nat, remote: nat)
    | Pipe(peer: nat)
    | Atalk(fd: int)
    | FatalLine(why: Fatal)

  // ---------------------------------------------------------------------
  // Ports
  // ---------------------------------------------------------------------

  /** Exchanging the two bytes of a 16-bit value. */
  function Swap16(x: nat): (r: nat)
    requires x < 0x1_0000
    ensures r < 0x1_0000
    ensures r % 0x100 == x / 0x100 && r / 0x100 == x % 0x100
  {
    (x % 0x100) * 0x100 + x / 0x100
  }

  /** Swapping twice gives the value back. */
  lemma Swap16Involution(x: nat)
    requires x < 0x1_0000
    ensures Swap16(Swap16(x)) == x
  {
    var y := Swap16(x);
    assert y % 0x100 == x / 0x100 && y / 0x100 == x % 0x100;
  }

  /**
   * `(int)ntohs(v)` for an `int` field `v`: the argument is converted to
   * `uint16_t` (taken modulo 2^16) and its bytes are swapped, the host being
   * little-endian.
   */
  function Port(v: int): (r: nat)
    ensures r < 0x1_0000
    ensures r == 0 <==> v % 0x1_0000 == 0
  {
    Swap16(v % 0x1_0000)
  }

  /** A port field holding a network-order 16-bit value comes back as that value. */
  lemma PortOfNetworkOrder(p: nat)
    requires p < 0x1_0000
    ensures Port(Swap16(p)) == p
  {
    var q := Swap16(p);
    assert q % 0x1_0000 == q;
    Swap16Involution(p);
  }

  // ---------------------------------------------------------------------
  // One descriptor
  // ---------------------------------------------------------------------

  /** The dispatch chain: vnode, socket and pipe by type, then AppleTalk by descriptor number. */
  function QueryFor(d: Descriptor): (q: Option<Query>)
    ensures q == Some(VnodePathQuery) <==> d.fdType == FdTypeVnode
    ensures q == Some(SocketQuery) <==> d.fdType == FdTypeSocket
    ensures q == Some(PipeQuery) <==> d.fdType == FdTypePipe
    ensures q == Some(AtalkQuery) <==>
              d.fdType !in {FdTypeVnode, FdTypeSocket, FdTypePipe} && d.fd == FdTypeAtalk
  {
    if d.fdType == FdTypeVnode then Some(VnodePathQuery)
    else if d.fdType == FdTypeSocket then Some(SocketQuery)
    else if d.fdType == FdTypePipe then Some(PipeQuery)
    else if d.fd == FdTypeAtalk then Some(AtalkQuery)
    else None
  }

  /** The reply to `q` filled the whole record. */
  predicate Complete(sizes: RecordSizes, q: Query, r: Replies) {
    match q
    case VnodePathQuery => r.vnodeSize == sizes.vnodePath
    case SocketQuery => r.socketSize == sizes.socket
    case PipeQuery => r.pipeSize == sizes.pipe
    case AtalkQuery => r.atalkSize == sizes.atalk
  }

  /** The line, if any, one pass of the descriptor loop prints. */
  function Classify(sizes: RecordSizes, e: Entry): (line: Option<Line>)
    ensures line.Some? ==> QueryFor(e.desc).Some? && Complete(sizes, QueryFor(e.desc).value, e.replies)
    ensures line.Some? && line.value.File? <==>
              QueryFor(e.desc) == Some(VnodePathQuery) && Complete(sizes, VnodePathQuery, e.replies)
    ensures line.Some? && (line.value.Listen? || line.value.Open?) <==>
              && QueryFor(e.desc) == Some(SocketQuery) && Complete(sizes, SocketQuery, e.replies)
              && e.replies.socket.family == AfInet
    ensures line.Some? && line.value.Pipe? <==>
              QueryFor(e.desc) == Some(PipeQuery) && Complete(sizes, PipeQuery, e.replies)
    ensures line.Some? && line.value.Atalk? <==>
              QueryFor(e.desc) == Some(AtalkQuery) && Complete(sizes, AtalkQuery, e.replies)
    ensures line.Some? ==> !line.value.Header? && !line.value.FatalLine?
    ensures line.Some? && line.value.File? ==> line.value == File(e.desc.fd, e.replies.path)
    ensures line.Some? && line.value.Pipe? ==> line.value == Pipe(e.replies.peer)
    ensures line.Some? && line.value.Atalk? ==> line.value.fd == 0
    ensures line.Some? && (line.value.Listen? || line.value.Open?) ==>
              && line.value.fd == e.desc.fd
              && line.value.local == Port(e.replies.socket.lport)
              && (line.value.tcp <==> e.replies.socket.kind == SockInfoTcp)
              && (line.value.Listen? <==> Port(e.replies.socket.fport) == 0)
              && (line.value.Open? ==> line.value.remote == Port(e.replies.socket.fport) != 0)
  {
    var d, r := e.desc, e.replies;
    match QueryFor(d)
    case None => None
    case Some(VnodePathQuery) =>
      if r.vnodeSize == sizes.vnodePath then Some(File(d.fd, r.path)) else None
    case Some(SocketQuery) =>
      if r.socketSize == sizes.socket && r.socket.family == AfInet then
        var tcp := r.socket.kind == SockInfoTcp;
        var local, remote := Port(r.socket.lport), Port(r.socket.fport);
        if remote == 0 then Some(Listen(d.fd, tcp, local)) else Some(Open(d.fd, tcp, local, remote))
      else None
    case Some(PipeQuery) =>
      if r.pipeSize == sizes.pipe then Some(Pipe(r.peer)) else None
    case Some(AtalkQuery) =>
      if r.atalkSize == sizes.atalk then Some(Atalk(d.fd)) else None
  }

  /** Two replies that agree on what query `q` returns. */
  predicate SameAnswer(q: Query, a: Replies, b: Replies) {
    match q
    case VnodePathQuery => a.vnodeSize == b.vnodeSize && a.path == b.path
    case SocketQuery => a.socketSize == b.socketSize && a.socket == b.socket
    case PipeQuery => a.pipeSize == b.pipeSize && a.peer == b.peer
    case AtalkQuery => a.atalkSize == b.atalkSize
  }

  /**
   * At most one query is issued per descriptor and only its answer matters;
   * a descriptor the chain does not pick prints nothing whatever the replies.
   */
  lemma OnlyIssuedQueryMatters(sizes: RecordSizes, d: Descriptor, a: Replies, b: Replies)
    requires QueryFor(d).Some? ==> SameAnswer(QueryFor(d).value, a, b)
    ensures Classify(sizes, Entry(d, a)) == Classify(sizes, Entry(d, b))
  {
  }

  /**
   * The AppleTalk branch compares the descriptor number, not the type, with
   * `PROX_FDTYPE_ATALK`: an AppleTalk descriptor numbered 3 prints nothing,
   * and descriptor 0 of another type prints an ATALK line.
   */
  lemma AtalkTestsDescriptorNumber(sizes: RecordSizes, r: Replies)
    requires r.atalkSize == sizes.atalk
    ensures Classify(sizes, Entry(Descriptor(3, FdTypeAtalk), r)) == None
    ensures Classify(sizes, Entry(Descriptor(0, 5), r)) == Some(Atalk(0))
  {
  }

  /** The dispatch as evidently intended: the AppleTalk branch tests `proc_fdtype`. */
  function QueryForIntended(d: Descriptor): (q: Option<Query>)
    ensures q == Some(AtalkQuery) <==> d.fdType == FdTypeAtalk
    ensures q.None? <==> d.fdType !in {FdTypeAtalk, FdTypeVnode, FdTypeSocket, FdTypePipe}
    ensures d.fdType != FdTypeAtalk ==> q == (if QueryFor(d) == Some(AtalkQuery) then None else QueryFor(d))
  {
    if d.fdType == FdTypeVnode then Some(VnodePathQuery)
    else if d.fdType == FdTypeSocket then Some(SocketQuery)
    else if d.fdType == FdTypePipe then Some(PipeQuery)
    else if d.fdType == FdTypeAtalk then Some(AtalkQuery)
    else None
  }

  /** `Classify` with the intended AppleTalk test; the other branches are unchanged. */
  function ClassifyIntended(sizes: RecordSizes, e: Entry): (line: Option<Line>)
    ensures line.Some? && line.value.Atalk? <==>
              e.desc.fdType == FdTypeAtalk && e.replies.atalkSize == sizes.atalk
    ensures line.Some? && line.value.Atalk? ==> line.value.fd == e.desc.fd
    ensures QueryFor(e.desc) == QueryForIntended(e.desc) ==> line == Classify(sizes, e)
  {
    var d, r := e.desc, e.replies;
    if QueryForIntended(d) == Some(AtalkQuery) then
      if r.atalkSize == sizes.atalk then Some(Atalk(d.fd)) else None
    else if QueryForIntended(d).None? then None
    else Classify(sizes, e)
  }

  /** With the intended test, the AppleTalk descriptor numbered 3 is listed. */
  lemma AtalkListedWhenIntended(sizes: RecordSizes, r: Replies)
    requires r.atalkSize == sizes.atalk
    ensures ClassifyIntended(sizes, Entry(Descriptor(3, FdTypeAtalk), r)) == Some(Atalk(3))
    ensures ClassifyIntended(sizes, Entry(Descriptor(0, 5), r)) == None
  {
  }

  // ---------------------------------------------------------------------
  // The descriptor loop
  // ---------------------------------------------------------------------

  function LineOf(o: Option<Line>): seq<Line> {
    if o.Some? then [o.value] else []
  }

  /** The lines of the descriptor loop over `table`, entry by entry in table order. */
  function DescriptorLines(sizes: RecordSizes, table: seq<Entry>): (lines: seq<Line>)
    ensures |lines| <= |table|
    ensures forall l :: l in lines ==> !l.Header? && !l.FatalLine?
    decreases |table|
  {
    if table == [] then []
    else DescriptorLines(sizes, table[..|table| - 1]) + LineOf(Classify(sizes, table[|table| - 1]))
  }

  /** The loop's output over a table is its output over any split of it, concatenated. */
  lemma {:induction false} DescriptorLinesAppend(sizes: RecordSizes, a: seq<Entry>, b: seq<Entry>)
    ensures DescriptorLines(sizes, a + b) == DescriptorLines(sizes, a) + DescriptorLines(sizes, b)
    decreases |b|
  {
    if b == [] {
      assert a + b == a;
    } else {
      var b' := b[..|b| - 1];
      assert (a + b)[..|a + b| - 1] == a + b';
      assert (a + b)[|a + b| - 1] == b[|b| - 1];
      DescriptorLinesAppend(sizes, a, b');
    }
  }

  /** One more entry of the table adds that entry's line, if any. */
  lemma DescriptorLinesStep(sizes: RecordSizes, table: seq<Entry>, i: nat)
    requires i < |table|
    ensures DescriptorLines(sizes, table[..i + 1]) == DescriptorLines(sizes, table[..i]) + LineOf(Classify(sizes, table[i]))
  {
    assert table[..i + 1][..i] == table[..i];
  }

  /**
   * The `for (i = 0; i < pid_size / PROC_PIDLISTFD_SIZE; ++i)` loop over the
   * table `fd_info` the second `proc_pidinfo` call filled.
   */
  method ListDescriptors(sizes: RecordSizes, pidSize: int, fdInfo: seq<Entry>) returns (lines: seq<Line>)
    requires pidSize >= 0 && |fdInfo| == pidSize / ListFdSize
    ensures lines == DescriptorLines(sizes, fdInfo)
  {
    lines := [];
    var i := 0;
    while i < pidSize / ListFdSize
      invariant 0 <= i <= |fdInfo|
      invariant lines == DescriptorLines(sizes, fdInfo[..i])
    {
      DescriptorLinesStep(sizes, fdInfo, i);
      lines := lines + LineOf(Classify(sizes, fdInfo[i]));
      i := i + 1;
    }
    assert fdInfo[..i] == fdInfo;
  }

  // ---------------------------------------------------------------------
  // One process: pid_info
  // ---------------------------------------------------------------------

  /**
   * What libproc reports for one pid: the `pbi_name` the info query left in
   * the record (it is printed whether or not the query succeeded), the
   * table size the first `PROC_PIDLISTFDS` call returned, whether `malloc`
   * succeeded, and the entries of the table.
   */
  datatype Process = Process(pid: int, name: string, pidSize: int, allocOk: bool, fdInfo: seq<Entry>)

  /** The table holds `pid_size / PROC_PIDLISTFD_SIZE` entries when the size is valid. */
  predicate WellFormed(p: Process) {
    p.pidSize >= 0 ==> |p.fdInfo| == p.pidSize / ListFdSize
  }

  /** `pid_info` ends the whole program. */
  predicate IsFatal(p: Process) {
    p.pidSize < 0 || !p.allocOk
  }

  /** The result of `pid_info`: its lines, and whether it called `exit(EXIT_FAILURE)`. */
  datatype Outcome = Outcome(lines: seq<Line>, exits: bool)

  function PidInfo(sizes: RecordSizes, p: Process): (o: Outcome)
    requires WellFormed(p)
    ensures |o.lines| >= 1 && o.lines[0] == Header(p.name, p.pid)
    ensures o.exits <==> IsFatal(p)
    ensures o.exits ==> |o.lines| == 2 && o.lines[1].FatalLine?
    ensures o.exits ==> (o.lines[1].why == ListFdsFailed <==> p.pidSize < 0)
    ensures !o.exits ==> o.lines[1..] == DescriptorLines(sizes, p.fdInfo)
    ensures p.pidSize == 0 && p.allocOk ==> o.lines == [Header(p.name, p.pid)]
    ensures forall k :: 1 <= k < |o.lines| ==> !o.lines[k].Header?
  {
    var header := Header(p.name, p.pid);
    if p.pidSize < 0 then Outcome([header, FatalLine(ListFdsFailed)], true)
    else if !p.allocOk then Outcome([header, FatalLine(MallocFailed)], true)
    else
      var body := DescriptorLines(sizes, p.fdInfo);
      assert forall k :: 0 <= k < |body| ==> body[k] in body;
      Outcome([header] + body, false)
  }

  // ---------------------------------------------------------------------
  // main
  // ---------------------------------------------------------------------

  /** The `pids[i]` `main` visits: the first `size_pids / sizeof(pid_t)` entries filled. */
  function Visited(filledBytes: nat, pids: seq<Process>): (v: seq<Process>)
    requires filledBytes / PidBytes <= |pids|
    ensures |v| == filledBytes / PidBytes && v == pids[..|v|]
  {
    pids[..filledBytes / PidBytes]
  }

  datatype Status = Success | Failure

  datatype Run = Run(lines: seq<Line>, status: Status)

  /** The index of the first process whose `pid_info` exits, or `|ps|`. */
  function FirstFatal(ps: seq<Process>): (k: nat)
    ensures k <= |ps|
    ensures forall j :: 0 <= j < k ==> !IsFatal(ps[j])
    ensures k < |ps| ==> IsFatal(ps[k])
    decreases |ps|
  {
    if ps == [] then 0
    else if IsFatal(ps[0]) then 0
    else 1 + FirstFatal(ps[1..])
  }

  /** The pids of the header lines, in output order. */
  function HeaderPids(lines: seq<Line>): seq<int>
    decreases |lines|
  {
    if lines == [] then []
    else (if lines[0].Header? then [lines[0].pid] else []) + HeaderPids(lines[1..])
  }

  lemma HeaderPidsCons(x: Line, rest: seq<Line>)
    ensures HeaderPids([x] + rest) == (if x.Header? then [x.pid] else []) + HeaderPids(rest)
  {
    assert ([x] + rest)[1..] == rest;
  }

  lemma {:induction false} HeaderPidsAppend(a: seq<Line>, b: seq<Line>)
    ensures HeaderPids(a + b) == HeaderPids(a) + HeaderPids(b)
    decreases |a|
  {
    if a == [] {
      assert a + b == b;
    } else {
      var x, rest := a[0], a[1..];
      assert a == [x] + rest;
      assert a + b == [x] + (rest + b);
      HeaderPidsCons(x, rest + b);
      HeaderPidsCons(x, rest);
      HeaderPidsAppend(rest, b);
    }
  }

  lemma {:induction false} HeaderPidsNone(lines: seq<Line>)
    requires forall k :: 0 <= k < |lines| ==> !lines[k].Header?
    ensures HeaderPids(lines) == []
    decreases |lines|
  {
    if lines != [] {
      HeaderPidsNone(lines[1..]);
    }
  }

  function Pids(ps: seq<Process>): (r: seq<int>)
    ensures |r| == |ps| && forall k :: 0 <= k < |ps| ==> r[k] == ps[k].pid
    decreases |ps|
  {
    if ps == [] then [] else [ps[0].pid] + Pids(ps[1..])
  }

  lemma PidsCons(ps: seq<Process>, n: nat)
    requires n < |ps|
    ensures Pids(ps[..n + 1]) == [ps[0].pid] + Pids(ps[1..][..n])
  {
    assert ps[..n + 1] == [ps[0]] + ps[1..][..n];
    assert ps[..n + 1][1..] == ps[1..][..n];
  }

  /** `pid_info` for each process in turn, until one exits. */
  function RunAll(sizes: RecordSizes, ps: seq<Process>): (r: Run)
    requires forall k :: 0 <= k < |ps| ==> WellFormed(ps[k])
    ensures r.status == Failure <==> FirstFatal(ps) < |ps|
    decreases |ps|
  {
    if ps == [] then Run([], Success)
    else
      var o := PidInfo(sizes, ps[0]);
      if o.exits then Run(o.lines, Failure)
      else
        var rest := RunAll(sizes, ps[1..]);
        Run(o.lines + rest.lines, rest.status)
  }

  /** `pid_info` prints exactly one header, its first line. */
  lemma PidInfoHeaders(sizes: RecordSizes, p: Process)
    requires WellFormed(p)
    ensures HeaderPids(PidInfo(sizes, p).lines) == [p.pid]
  {
    var o := PidInfo(sizes, p);
    HeaderPidsAppend([o.lines[0]], o.lines[1..]);
    HeaderPidsNone(o.lines[1..]);
    assert o.lines == [o.lines[0]] + o.lines[1..];
    assert HeaderPids([o.lines[0]]) == [p.pid] + HeaderPids([]);
  }

  /**
   * The run prints one header per process it reaches, in list order: every
   * process up to and including the first fatal one, or all of them.
   */
  lemma {:induction false} RunAllHeaders(sizes: RecordSizes, ps: seq<Process>)
    requires forall k :: 0 <= k < |ps| ==> WellFormed(ps[k])
    ensures var r := RunAll(sizes, ps);
            HeaderPids(r.lines) == Pids(ps[..if r.status == Failure then FirstFatal(ps) + 1 else |ps|])
    decreases |ps|
  {
    if ps != [] {
      var o := PidInfo(sizes, ps[0]);
      PidInfoHeaders(sizes, ps[0]);
      if o.exits {
        assert RunAll(sizes, ps) == Run(o.lines, Failure);
        assert FirstFatal(ps) == 0;
        assert ps[..1] == [ps[0]];
        assert Pids(ps[..1]) == [ps[0].pid];
      } else {
        var tail := ps[1..];
        assert forall k :: 0 <= k < |tail| ==> WellFormed(tail[k]) by {
          forall k | 0 <= k < |tail| ensures WellFormed(tail[k]) {
            assert tail[k] == ps[k + 1];
          }
        }
        var rest := RunAll(sizes, tail);
        assert RunAll(sizes, ps) == Run(o.lines + rest.lines, rest.status);
        var n := if rest.status == Failure then FirstFatal(tail) + 1 else |tail|;
        assert rest.status == Failure ==> FirstFatal(ps) + 1 == n + 1;
        RunAllHeaders(sizes, tail);
        HeaderPidsAppend(o.lines, rest.lines);
        PidsCons(ps, n);
        assert HeaderPids(RunAll(sizes, ps).lines) == [ps[0].pid] + Pids(tail[..n]);
      }
    }
  }

  /** Every process's `pid_info` output, one after another, as if none exited. */
  function Outputs(sizes: RecordSizes, ps: seq<Process>): seq<Line>
    requires forall k :: 0 <= k < |ps| ==> WellFormed(ps[k])
    decreases |ps|
  {
    if ps == [] then [] else PidInfo(sizes, ps[0]).lines + Outputs(sizes, ps[1..])
  }

  /**
   * The run prints exactly the `pid_info` output of each process it
   * reaches, in list order: up to and including the first fatal one, or
   * all of them.
   */
  lemma {:induction false} RunAllOutputs(sizes: RecordSizes, ps: seq<Process>)
    requires forall k :: 0 <= k < |ps| ==> WellFormed(ps[k])
    ensures var r := RunAll(sizes, ps);
            r.lines == Outputs(sizes, ps[..if r.status == Failure then FirstFatal(ps) + 1 else |ps|])
    decreases |ps|
  {
    if ps == [] {
      assert ps[..0] == [];
    } else {
      var o := PidInfo(sizes, ps[0]);
      if o.exits {
        assert FirstFatal(ps) == 0;
        assert ps[..1] == [ps[0]] && [ps[0]][1..] == [];
        assert Outputs(sizes, ps[..1]) == o.lines + [];
      } else {
        var tail := ps[1..];
        assert forall k :: 0 <= k < |tail| ==> WellFormed(tail[k]) by {
          forall k | 0 <= k < |tail| ensures WellFormed(tail[k]) {
            assert tail[k] == ps[k + 1];
          }
        }
        var rest := RunAll(sizes, tail);
        assert RunAll(sizes, ps) == Run(o.lines + rest.lines, rest.status);
        var n := if rest.status == Failure then FirstFatal(tail) + 1 else |tail|;
        assert rest.status == Failure ==> FirstFatal(ps) + 1 == n + 1;
        RunAllOutputs(sizes, tail);
        assert ps[..n + 1][0] == ps[0] && ps[..n + 1][1..] == tail[..n];
      }
    }
  }

  /**
   * `main`: list the pids, then call `pid_info` on each of the
   * `size_pids / sizeof(pid_t)` filled entries. Returning from `main`
   * succeeds; an `exit(EXIT_FAILURE)` inside `pid_info` fails the run.
   */
  function MainRun(sizes: RecordSizes, filledBytes: nat, pids: seq<Process>): (r: Run)
    requires filledBytes / PidBytes <= |pids|
    requires forall k :: 0 <= k < |pids| ==> WellFormed(pids[k])
    ensures var v := Visited(filledBytes, pids);
            && (r.status == Failure <==> exists k :: 0 <= k < |v| && IsFatal(v[k]))
            && HeaderPids(r.lines) == Pids(v[..if r.status == Failure then FirstFatal(v) + 1 else |v|])
            && r.lines == Outputs(sizes, v[..if r.status == Failure then FirstFatal(v) + 1 else |v|])
  {
    var v := Visited(filledBytes, pids);
    var r := RunAll(sizes, v);
    RunAllHeaders(sizes, v);
    RunAllOutputs(sizes, v);
    assert r.status == Failure ==> IsFatal(v[FirstFatal(v)]);
    r
  }

  /** A fatal process ends the run: no later pid gets a header. */
  lemma FatalStopsRun(sizes: RecordSizes, ps: seq<Process>, k: nat)
    requires forall j :: 0 <= j < |ps| ==> WellFormed(ps[j])
    requires k < |ps| && IsFatal(ps[k])
    ensures RunAll(sizes, ps).status == Failure
    ensures |HeaderPids(RunAll(sizes, ps).lines)| <= k + 1
  {
    RunAllHeaders(sizes, ps);
    assert FirstFatal(ps) <= k;
  }

  // ---------------------------------------------------------------------
  // Rendering
  // ---------------------------------------------------------------------

  function Tag(tcp: bool): string {
    if tcp then " TCP" else ""
  }

  /** The text one line prints, with the exact `printf` formats (`puts` adds "\n"). */
  function Render(l: Line): (s: string)
    ensures |s| > 0
    ensures s[|s| - 1] == '\n' <==> !l.Open?
  {
    match l
    case Header(name, pid) => name + ": " + Numerals.IntToDecimal(pid) + "\n"
    case File(fd, path) => "\t" + Numerals.IntToDecimal(fd) + " FILE: " + path + "\n"
    case Listen(fd, tcp, local) =>
      "\t" + Numerals.IntToDecimal(fd) + " LISTEN" + Tag(tcp) + ": " + Numerals.NatToDecimal(local) + "\n"
    case Open(fd, tcp, local, remote) => "\t" + OpenText(fd, tcp, local, remote)
    case Pipe(peer) => "\tPIPE: " + Numerals.NatToDecimal(peer) + "\n"
    case Atalk(fd) => "\t" + Numerals.IntToDecimal(fd) + " ATALK\n"
    case FatalLine(why) =>
      (if why == ListFdsFailed then "FATAL: proc_pidinfo(PROC_PIDLISTFDS) failed." else "FATAL: malloc() failed.") + "\n"
  }

  /** The OPEN line after its tab; `printf` is given no "\n" here. */
  function OpenText(fd: int, tcp: bool, local: nat, remote: nat): (s: string)
    ensures |s| > 0 && Numerals.IsDigit(s[|s| - 1])
  {
    var r := Numerals.NatToDecimal(remote);
    var s := Numerals.IntToDecimal(fd) + " OPEN" + Tag(tcp) + ": " + Numerals.NatToDecimal(local) + " -> " + r;
    assert s[|s| - 1] == r[|r| - 1];
    s
  }

  /** Everything the program writes to standard output. */
  function RenderAll(lines: seq<Line>): (s: string)
    ensures |s| >= |lines|
    decreases |lines|
  {
    if lines == [] then "" else RenderAll(lines[..|lines| - 1]) + Render(lines[|lines| - 1])
  }

  /** The output ends in a newline iff its last line is not an OPEN line. */
  lemma RenderAllEnds(lines: seq<Line>)
    requires lines != []
    ensures var s := RenderAll(lines); s[|s| - 1] == '\n' <==> !lines[|lines| - 1].Open?
  {
    var a, x := lines[..|lines| - 1], lines[|lines| - 1];
    assert lines == a + [x];
    RenderAllSnoc(a, x);
    LastOfAppend(RenderAll(a), Render(x));
  }

  lemma LastOfAppend(p: string, q: string)
    requires |q| > 0
    ensures (p + q)[|p + q| - 1] == q[|q| - 1]
  {
  }

  /** One more line appends exactly its own text. */
  lemma RenderAllSnoc(a: seq<Line>, x: Line)
    ensures RenderAll(a + [x]) == RenderAll(a) + Render(x)
  {
    assert (a + [x])[..|a|] == a;
  }

  /**
   * The OPEN line has no "\n": the line printed after it continues on the
   * same output line.
   */
  lemma OpenRunsIntoNextLine(fd: int, tcp: bool, local: nat, remote: nat, next: Line)
    ensures var s := Render(Open(fd, tcp, local, remote));
            RenderAll([Open(fd, tcp, local, remote), next]) == s + Render(next) && '\n' !in s[1..]
  {
    RenderAllPair(Open(fd, tcp, local, remote), next);
    OpenLineHasNoNewline(fd, tcp, local, remote);
  }

  /** Two lines print as the first line's text followed by the second's. */
  lemma RenderAllPair(x: Line, y: Line)
    ensures RenderAll([x, y]) == Render(x) + Render(y)
  {
    assert [x, y][..1] == [x] && [x][..0] == [];
    assert RenderAll([x]) == "" + Render(x) == Render(x);
  }

  /** After its leading tab, the OPEN line holds no newline at all. */
  lemma OpenLineHasNoNewline(fd: int, tcp: bool, local: nat, remote: nat)
    ensures var s := Render(Open(fd, tcp, local, remote)); '\n' !in s[1..]
  {
    var s := Render(Open(fd, tcp, local, remote));
    var a, b, c := Numerals.IntToDecimal(fd), Numerals.NatToDecimal(local), Numerals.NatToDecimal(remote);
    assert s[1..] == OpenText(fd, tcp, local, remote) == a + " OPEN" + Tag(tcp) + ": " + b + " -> " + c;
    IntHasNoNewline(fd);
    NatHasNoNewline(local);
    NatHasNoNewline(remote);
  }

  lemma IntHasNoNewline(i: int)
    ensures '\n' !in Numerals.IntToDecimal(i)
  {
    var a := Numerals.IntToDecimal(i);
    forall k | 0 <= k < |a| ensures a[k] != '\n' {
      if k > 0 { assert Numerals.IsDigit(a[k]); }
    }
  }

  lemma NatHasNoNewline(n: nat)
    ensures '\n' !in Numerals.NatToDecimal(n)
  {
    var b := Numerals.NatToDecimal(n);
    assert forall k :: 0 <= k < |b| ==> Numerals.IsDigit(b[k]);
  }

  /** `Render` as evidently intended: the OPEN line ends in "\n" like the LISTEN line. */
  function RenderIntended(l: Line): (s: string)
    ensures |s| > 0 && s[|s| - 1] == '\n'
    ensures !l.Open? ==> s == Render(l)
    ensures l.Open? ==> s == Render(l) + "\n"
  {
    if l.Open? then Render(l) + "\n" else Render(l)
  }
}
