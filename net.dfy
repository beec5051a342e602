/**
 * The operating system as the segmentation client sees it, as a value: the
 * scripted answers of the calls the client makes (socket setup, `write`,
 * `recv`), the files `fopen` can open, the `TMPDIR` variable, the bytes written
 * to each descriptor so far, and a log of the calls made. When a write or recv
 * script is used up, the call answers -1: the client sets one-second send and
 * receive timeouts, so a peer that keeps the connection open but sends or
 * accepts nothing more makes the call fail with a timeout. A peer that closes
 * the connection is a different case: see `Answer`.
 */
module Net {
  import opened Bytes
  import opened Wrappers

  /** The outcome of one connection attempt: `socket()`, two `setsockopt` timeouts, `connect`. */
  datatype Attempt = Attempt(fd: int32, recvTimeoutSet: bool, sendTimeoutSet: bool, connected: bool)

  /**
   * One `recv` answer: the bytes delivered, or an error. A `Data` answer without
   * bytes is the peer's orderly shutdown: `recv` answers 0, and as on a real
   * stream socket it answers 0 again on every later call, so that answer is
   * never used up.
   */
  datatype Answer = Data(bytes: seq<byte>) | Fail

  /** The end of the stream: the peer has closed its side of the connection. */
  predicate Closed(e: Env)
  {
    e.recvs != [] && e.recvs[0] == Data([])
  }

  datatype Call =
    | Open(path: string)
    | Socket(fd: int)
    | Close(fd: int)
    | Send(fd: int, bytes: seq<byte>)
    | Receive(fd: int, count: nat)

  datatype Env = Env(
    tmpdir: Option<string>,
    files: map<string, seq<byte>>,
    attempts: seq<Attempt>,
    writes: seq<int>,
    recvs: seq<Answer>,
    sent: map<int, seq<byte>>,
    log: seq<Call>)

  function Min(a: int, b: int): int
  {
    if a < b then a else b
  }

  /** Number of `socket()` calls in a log. */
  function SocketCalls(log: seq<Call>): nat
  {
    if log == [] then 0 else SocketCalls(log[..|log| - 1]) + (if log[|log| - 1].Socket? then 1 else 0)
  }

  lemma {:induction false} SocketCallsAppend(log: seq<Call>, more: seq<Call>)
    ensures SocketCalls(log + more) == SocketCalls(log) + SocketCalls(more)
    decreases |more|
  {
    if more != [] {
      var m := more[..|more| - 1];
      assert (log + more)[..|log + more| - 1] == log + m;
      assert more[..|more| - 1] == m;
      SocketCallsAppend(log, m);
    } else {
      assert log + more == log;
    }
  }

  /** One more call: a `socket()` adds one. */
  lemma SocketCallsStep(log: seq<Call>, c: Call)
    ensures SocketCalls(log + [c]) == SocketCalls(log) + (if c.Socket? then 1 else 0)
  {
    assert (log + [c])[..|log|] == log;
  }

  /** b's log starts with a's: the calls between a and b were only appended. */
  predicate LogExtends(a: Env, b: Env)
  {
    |a.log| <= |b.log| && b.log[..|a.log|] == a.log
  }

  lemma LogExtendsTrans(a: Env, b: Env, c: Env)
    requires LogExtends(a, b) && LogExtends(b, c)
    ensures LogExtends(a, c)
  {
    assert c.log[..|b.log|][..|a.log|] == c.log[..|a.log|];
  }

  /** The bytes sent on descriptor fd, in order. */
  function SentOn(e: Env, fd: int): seq<byte>
  {
    if fd in e.sent then e.sent[fd] else []
  }

  datatype Opened = Opened(env: Env, contents: Option<seq<byte>>)

  /** `fopen(path, "r")` followed by `fread(buf, 1, count, file)`: None when fopen fails. */
  function OpenRead(e: Env, path: string, count: nat): (r: Opened)
    ensures r.env == e.(log := e.log + [Open(path)])
    ensures r.contents.None? <==> path !in e.files
    ensures r.contents.Some? ==> r.contents.value == e.files[path][..Min(count, |e.files[path]|)]
  {
    var e' := e.(log := e.log + [Open(path)]);
    if path in e.files then
      var f := e.files[path];
      Opened(e', Some(f[..Min(count, |f|)]))
    else
      Opened(e', None)
  }

  datatype Connected = Connected(env: Env, attempt: Attempt)

  /** The next connection attempt; with none scripted, `socket()` fails. */
  function NextAttempt(e: Env): (r: Connected)
    ensures r.attempt == (if e.attempts == [] then Attempt(-1, false, false, false) else e.attempts[0])
    ensures r.env == e.(attempts := if e.attempts == [] then [] else e.attempts[1..],
                        log := e.log + [Socket(r.attempt.fd)])
  {
    var a := if e.attempts == [] then Attempt(-1, false, false, false) else e.attempts[0];
    Connected(e.(attempts := if e.attempts == [] then [] else e.attempts[1..], log := e.log + [Socket(a.fd)]), a)
  }

  function CloseFd(e: Env, fd: int): (r: Env)
    ensures r == e.(log := e.log + [Close(fd)])
  {
    e.(log := e.log + [Close(fd)])
  }

  datatype Written = Written(env: Env, n: int)

  /**
   * `write(fd, data, |data|)`: the next scripted count, which the kernel never
   * lets exceed |data|; a negative script entry, or none, is the error -1.
   */
  function Write(e: Env, fd: int, data: seq<byte>): (r: Written)
    ensures r.n == -1 || 0 <= r.n <= |data|
    ensures e.writes != [] ==> r.n == (if e.writes[0] < 0 then -1 else Min(e.writes[0], |data|))
    ensures e.writes == [] ==> r.n == -1
    ensures var out := if r.n < 0 then [] else data[..r.n];
            r.env == e.(writes := if e.writes == [] then [] else e.writes[1..],
                        sent := e.sent[fd := SentOn(e, fd) + out],
                        log := e.log + [Send(fd, out)])
    ensures SentOn(r.env, fd) == SentOn(e, fd) + (if r.n < 0 then [] else data[..r.n])
  {
    var w := if e.writes == [] then -1 else e.writes[0];
    var n := if w < 0 then -1 else Min(w, |data|);
    var out := if n < 0 then [] else data[..n];
    Written(e.(writes := if e.writes == [] then [] else e.writes[1..],
               sent := e.sent[fd := SentOn(e, fd) + out],
               log := e.log + [Send(fd, out)]), n)
  }

  datatype Received = Received(env: Env, n: int, bytes: seq<byte>)

  /** `recv(fd, buf, count, flags)`: the next scripted answer, cut to `count` bytes (the rest of that answer is dropped); after a close, 0 for ever. */
  function Recv(e: Env, fd: int, count: nat): (r: Received)
    ensures (r.n == -1 && r.bytes == []) || (r.n == |r.bytes| && |r.bytes| <= count)
    ensures e.recvs == [] ==> r.n == -1
    ensures e.recvs != [] && e.recvs[0].Fail? ==> r.n == -1
    ensures e.recvs != [] && e.recvs[0].Data? ==>
              r.bytes == e.recvs[0].bytes[..Min(count, |e.recvs[0].bytes|)]
    ensures Closed(e) ==> r.n == 0 && Closed(r.env)
    ensures r.env == e.(recvs := if e.recvs == [] || Closed(e) then e.recvs else e.recvs[1..],
                        log := e.log + [Receive(fd, count)])
  {
    var e' := e.(recvs := if e.recvs == [] || Closed(e) then e.recvs else e.recvs[1..],
                 log := e.log + [Receive(fd, count)]);
    if e.recvs == [] || e.recvs[0].Fail? then Received(e', -1, [])
    else
      var d := e.recvs[0].bytes;
      var got := d[..Min(count, |d|)];
      Received(e', |got|, got)
  }
}
