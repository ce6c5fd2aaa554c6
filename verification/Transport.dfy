/** The transports under a request: the operating system and OpenSSL as an arbitrary script of
    answers, and the retry loops of PlainSocket and SSLManager over it. */
module Transport {
  import opened Trace

  /** One answer of the environment; each question uses the parts it needs. */
  datatype Answer = Answer(cancel: bool, ok: bool, clock: nat, code: ResultCode, errorCode: int, ret: int,
                           bytes: string)

  /** The environment past the end of its script: everything fails for good. */
  const SILENT: Answer := Answer(false, false, 0, Failed, 0, -1, "")

  const EINTR: int := 4
  const EAGAIN: int := 11
  const SSL_ERROR_WANT_READ: int := 2
  const SSL_ERROR_WANT_WRITE: int := 3
  const MAX_RETRY_COUNT: nat := 1000
  const DEFAULT_READ_SIZE: nat := 4096

  datatype SocketResult = SocketResult(resultCode: ResultCode, errorCode: int) {
    predicate IsSuccess() {
      resultCode.Success?
    }
  }

  predicate WantsRetry(error: int) {
    error == SSL_ERROR_WANT_WRITE || error == SSL_ERROR_WANT_READ
  }

  /** A call that a signal interrupted. */
  predicate Interrupted(a: Answer) {
    a.ret < 0 && a.errorCode == EINTR
  }

  /** The bytes a call to receive gets, none when it fails or the peer has closed. */
  function Taken(a: Answer): (bytes: string)
    ensures if a.ret < 0 then bytes == "" else bytes <= a.bytes && (|bytes| < 4096 ==> bytes == a.bytes)
    ensures |bytes| <= 4096
  {
    if a.ret < 0 then "" else a.bytes[..Min(|a.bytes|, DEFAULT_READ_SIZE)]
  }

  /** How many of `n` offered bytes a call to send takes. */
  function Accepted(a: Answer, n: nat): (k: nat)
    ensures k <= n && (a.ret < 0 ==> k == 0) && (a.ret >= 0 ==> k == n || k == a.ret)
    ensures a.ret >= 0 ==> k <= a.ret
  {
    if a.ret < 0 then 0 else Min(a.ret, n)
  }

  /** The socket of an attempt; OpenSSL may have failed to make a session for a TLS one. */
  datatype Socket = NoSocket | PlainSocket | TlsSocket(session: bool)

  /** One connection attempt: the answers still to come when it began, its socket, the bytes accepted for
      sending, and the reads that got bytes. */
  datatype Attempt = Attempt(script: seq<Answer>, socket: Socket, wire: string, parts: seq<string>)

  /** The n-th answer decides a transfer on a plain socket: all before it were interrupted calls, and it
      is another one only when it is the 1000th. */
  ghost predicate PlainDecides(s: seq<Answer>, n: int) {
    && 0 < n <= MAX_RETRY_COUNT
    && (forall i: nat | i < n - 1 :: Interrupted(Nth(s, i)))
    && (Interrupted(Nth(s, n - 1)) ==> n == MAX_RETRY_COUNT)
  }

  /** The n-th answer decides a TLS transfer: all before it failed, the first of them wanting a retry, and
      it fails only when it is the 1000th or the first and did not want one. Without a session nothing is asked. */
  ghost predicate SslDecides(session: bool, s: seq<Answer>, n: int) {
    if !session then n == 0
    else
      && 0 < n <= MAX_RETRY_COUNT
      && (forall i: nat | i < n - 1 :: Nth(s, i).ret < 0)
      && (n > 1 ==> WantsRetry(Nth(s, 0).errorCode))
      && (Nth(s, n - 1).ret < 0 ==> n == MAX_RETRY_COUNT || (n == 1 && !WantsRetry(Nth(s, 0).errorCode)))
  }

  ghost predicate Decides(socket: Socket, s: seq<Answer>, n: int) {
    match socket
    case TlsSocket(session) => SslDecides(session, s, n)
    case _ => PlainDecides(s, n)
  }

  function PlainResult(a: Answer, some: bool, receiving: bool): SocketResult {
    if a.ret >= 0 then SocketResult(if some then Success else Disconnected, 0)
    else if a.errorCode == EINTR then SocketResult(RetryReachMaxCount, a.errorCode)
    else if a.errorCode == EAGAIN && receiving then SocketResult(Retry, a.errorCode)
    else SocketResult(Failed, a.errorCode)
  }

  /** A close keeps the error number of the failure before it. */
  function SslResult(s: seq<Answer>, n: nat, some: bool): SocketResult {
    if n == 0 then SocketResult(Failed, 0)
    else
      var a := Nth(s, n - 1);
      if a.ret < 0 then SocketResult(if n == MAX_RETRY_COUNT then RetryReachMaxCount else Failed, a.errorCode)
      else if some then SocketResult(Success, 0)
      else SocketResult(Disconnected, if n == 1 then 0 else Nth(s, n - 2).errorCode)
  }

  /** What the socket says of a transfer that its n-th answer decided, and whether it moved any bytes. */
  function ResultOf(socket: Socket, s: seq<Answer>, n: nat, some: bool, receiving: bool): SocketResult
    requires socket.TlsSocket? || n > 0
  {
    if socket.TlsSocket? then SslResult(s, n, some) else PlainResult(Nth(s, n - 1), some, receiving)
  }

  function Min(a: int, b: int): int {
    if a < b then a else b
  }

  /** Nobody cancels. */
  ghost predicate Quiet(script: seq<Answer>) {
    forall i | 0 <= i < |script| :: !script[i].cancel
  }

  /** When nobody cancels, a request that is valid stays so. */
  ghost predicate Steady(valid: bool, script: seq<Answer>, valid': bool, script': seq<Answer>) {
    Quiet(script) ==> valid' == valid && Quiet(script')
  }

  /** The i-th answer of a script, and the script from there on. */
  function Nth(script: seq<Answer>, i: nat): (a: Answer)
    ensures Quiet(script) ==> !a.cancel
  {
    if i < |script| then script[i] else SILENT
  }

  function From(script: seq<Answer>, i: nat): (r: seq<Answer>)
    ensures |r| <= |script| && (i > 0 && script != [] ==> |r| < |script|)
    ensures Quiet(script) ==> Quiet(r)
  {
    if i <= |script| then script[i..] else []
  }

  lemma FromFrom(script: seq<Answer>, i: nat, j: nat)
    ensures From(From(script, i), j) == From(script, i + j)
    ensures Nth(From(script, i), j) == Nth(script, i + j)
  {
  }

  /** One more question, the n-th being the next. */
  lemma Asking(script: seq<Answer>, n: nat)
    ensures From(script, 0) == script
    ensures Nth(From(script, n), 0) == Nth(script, n) && From(From(script, n), 1) == From(script, n + 1)
    ensures Nth(script, n).ret >= 0 || Nth(script, n).errorCode != 0 ==> |From(script, n + 1)| < |script|
  {
  }

  class World {
    var script: seq<Answer>
    /** The current attempt: when it began, its socket, the bytes the transport has accepted, and the reads
        that got bytes. */
    ghost var begun: seq<Answer>
    ghost var socket: Socket
    ghost var wire: string
    ghost var parts: seq<string>
    /** The attempts before it. */
    ghost var past: seq<Attempt>
    ghost var open: bool
    /** What the last select and the last transfer said, and whether the peer has closed: the last read of
        this attempt did not fail and got nothing. */
    ghost var waited: SocketResult
    ghost var moved: SocketResult
    ghost var closed: bool
    /** How many system calls were made to send or receive. */
    ghost var calls: nat

    constructor (script: seq<Answer>)
      ensures this.script == script && Attempts() == [] && calls == 0 && !closed
    {
      this.script := script;
      begun, socket, wire, parts, past, open := script, NoSocket, "", [], [], false;
      waited, moved, closed, calls := SocketResult(Success, 0), SocketResult(Success, 0), false, 0;
    }

    ghost function Attempts(): seq<Attempt>
      reads `begun, `socket, `wire, `parts, `past, `open
    {
      past + if open then [Attempt(begun, socket, wire, parts)] else []
    }

    /** An attempt is under way that began with the answers `s` to come; it has no socket yet. */
    ghost predicate Began(earlier: seq<Attempt>, s: seq<Answer>)
      reads `begun, `socket, `wire, `parts, `past, `open
    {
      open && past == earlier && begun == s && socket == NoSocket && wire == "" && parts == []
    }

    method Ask() returns (a: Answer)
      modifies `script
      ensures a == Nth(old(script), 0) && script == From(old(script), 1)
    {
      if script == [] {
        return SILENT;
      }
      a := script[0];
      script := script[1..];
    }

    ghost method NewAttempt()
      modifies `begun, `socket, `wire, `parts, `past, `open, `closed
      ensures Began(old(Attempts()), script) && !closed
    {
      past := Attempts();
      begun, socket, wire, parts, open, closed := script, NoSocket, "", [], true, false;
    }

    ghost method Open(s: Socket)
      modifies `socket
      ensures socket == s
    {
      socket := s;
    }

    /** `::select`, whose answer is the environment's. */
    method Select() returns (result: SocketResult)
      modifies `script, `waited
      ensures script == From(old(script), 1)
      ensures var a := Nth(old(script), 0); result == waited == SocketResult(a.code, a.errorCode)
      ensures result.resultCode != Failed ==> |script| < |old(script)|
    {
      var a := Ask();
      result := SocketResult(a.code, a.errorCode);
      waited := result;
    }

    /** `::send` or `SSL_write`: -1 and an error number, or how many of the offered bytes were taken. */
    method SysSend(view: string) returns (ret: int, errno: int)
      modifies `script, `wire, `calls
      ensures var a := Nth(old(script), 0);
              && ret == (if a.ret < 0 then -1 else Accepted(a, |view|)) && errno == a.errorCode
              && wire == old(wire) + view[..Accepted(a, |view|)]
      ensures script == From(old(script), 1) && calls == old(calls) + 1
    {
      var a := Ask();
      ret := if a.ret < 0 then -1 else Min(a.ret, |view|);
      errno := a.errorCode;
      wire := wire + if ret > 0 then view[..ret] else "";
      calls := calls + 1;
    }

    /** `::recv` or `SSL_read` into a buffer of the default size. */
    method SysRecv() returns (ret: int, errno: int, bytes: string)
      modifies `script, `parts, `calls
      ensures var a := Nth(old(script), 0);
              && bytes == Taken(a) && errno == a.errorCode && ret == (if a.ret < 0 then -1 else |bytes|)
              && parts == old(parts) + if bytes == "" then [] else [bytes]
      ensures script == From(old(script), 1) && calls == old(calls) + 1
    {
      var a := Ask();
      if a.ret < 0 {
        ret, bytes := -1, "";
      } else {
        bytes := a.bytes[..Min(|a.bytes|, DEFAULT_READ_SIZE)];
        ret := |bytes|;
      }
      errno := a.errorCode;
      parts := parts + if bytes == "" then [] else [bytes];
      calls := calls + 1;
    }

    /** PlainSocket::send: the first call that is not interrupted decides, or the 1000th. */
    method PlainSend(dataView: string) returns (result: SocketResult, sendSize: int)
      modifies `script, `wire, `calls, `moved
      ensures PlainDecides(old(script), calls - old(calls)) && script == From(old(script), calls - old(calls))
      ensures var a := Nth(old(script), calls - old(calls) - 1);
              sendSize == Accepted(a, |dataView|) && result == PlainResult(a, sendSize > 0, false)
      ensures var n := calls - old(calls);
              var a := Nth(old(script), n - 1);
              && 0 < n <= 1000
              && (forall i: nat | i < n - 1 :: Nth(old(script), i).ret < 0 && Nth(old(script), i).errorCode == 4)
              && (result.resultCode == Success <==> sendSize > 0)
              && (result.resultCode == Disconnected <==> a.ret >= 0 && sendSize == 0)
              && (result.resultCode == RetryReachMaxCount <==> a.ret < 0 && a.errorCode == 4)
              && (result.resultCode == RetryReachMaxCount ==> n == 1000)
              && (result.resultCode == Failed <==> a.ret < 0 && a.errorCode != 4)
              && result.errorCode == if a.ret < 0 then a.errorCode else 0
      ensures 0 <= sendSize <= |dataView| && wire == old(wire) + dataView[..sendSize]
      ensures result.IsSuccess() <==> sendSize > 0
      ensures moved == result
      ensures |script| <= |old(script)| && (result.IsSuccess() ==> |script| < |old(script)|)
    {
      hide From, Nth;
      Asking(script, 0);
      result := SocketResult(Success, 0);
      var retryCount := 0;
      sendSize := -1;
      while true
        invariant 0 <= retryCount < MAX_RETRY_COUNT && calls == old(calls) + retryCount
        invariant wire == old(wire) && result.resultCode == Success
        invariant script == From(old(script), retryCount)
        invariant forall i: nat | i < retryCount :: Interrupted(Nth(old(script), i))
        decreases MAX_RETRY_COUNT - retryCount
      {
        Asking(old(script), retryCount);
        retryCount := retryCount + 1;
        var errno;
        sendSize, errno := SysSend(dataView);
        result := result.(errorCode := if sendSize == -1 then errno else 0);
        if !(retryCount < MAX_RETRY_COUNT && result.errorCode == EINTR) {
          break;
        }
      }
      if sendSize == -1 {
        sendSize := 0;
        result := result.(resultCode := if result.errorCode == EINTR then RetryReachMaxCount else Failed);
      } else if sendSize == 0 {
        result := result.(resultCode := Disconnected);
      }
      moved := result;
    }

    /** PlainSocket::receive: the same for reading. */
    method PlainReceive() returns (result: SocketResult, data: string)
      modifies `script, `parts, `calls, `moved, `closed
      ensures PlainDecides(old(script), calls - old(calls)) && script == From(old(script), calls - old(calls))
      ensures var a := Nth(old(script), calls - old(calls) - 1);
              data == Taken(a) && result == PlainResult(a, data != "", true)
      ensures var n := calls - old(calls);
              var a := Nth(old(script), n - 1);
              && 0 < n <= 1000
              && (forall i: nat | i < n - 1 :: Nth(old(script), i).ret < 0 && Nth(old(script), i).errorCode == 4)
              && (result.resultCode == Success <==> data != "")
              && (result.resultCode == Disconnected <==> a.ret >= 0 && data == "")
              && (result.resultCode == Retry <==> a.ret < 0 && a.errorCode == 11)
              && (result.resultCode == RetryReachMaxCount <==> a.ret < 0 && a.errorCode == 4)
              && (result.resultCode == RetryReachMaxCount ==> n == 1000)
              && (result.resultCode == Failed <==> a.ret < 0 && a.errorCode !in {4, 11})
              && result.errorCode == (if a.ret < 0 then a.errorCode else 0)
              && (closed <==> a.ret >= 0 && data == "")
      ensures parts == old(parts) + if data == "" then [] else [data]
      ensures result.IsSuccess() <==> data != ""
      ensures moved == result
      ensures |script| <= |old(script)|
      ensures result.IsSuccess() || result.resultCode == Retry ==> |script| < |old(script)|
    {
      hide From, Nth, Taken;
      Asking(script, 0);
      result := SocketResult(Success, 0);
      data := "";
      var receiveSize := -1;
      var retryCount := 0;
      while true
        invariant 0 <= retryCount < MAX_RETRY_COUNT && calls == old(calls) + retryCount
        invariant parts == old(parts) && data == ""
        invariant script == From(old(script), retryCount)
        invariant forall i: nat | i < retryCount :: Interrupted(Nth(old(script), i))
        decreases MAX_RETRY_COUNT - retryCount
      {
        Asking(old(script), retryCount);
        retryCount := retryCount + 1;
        var errno, bytes;
        receiveSize, errno, bytes := SysRecv();
        if receiveSize == -1 {
          result := result.(errorCode := errno);
        } else {
          data := bytes;
          result := result.(errorCode := 0);
          break;
        }
        if !(retryCount < MAX_RETRY_COUNT && result.errorCode == EINTR) {
          break;
        }
      }
      if receiveSize == -1 {
        if result.errorCode == EINTR {
          result := result.(resultCode := RetryReachMaxCount);
        } else if result.errorCode == EAGAIN {
          result := result.(resultCode := Retry);
        } else {
          result := result.(resultCode := Failed);
        }
      } else if data == "" {
        result := result.(resultCode := Disconnected);
      } else {
        result := result.(resultCode := Success);
      }
      moved, closed := result, receiveSize != -1 && data == "";
    }

    /** SSLManager::write; once one call has wanted a retry, every later failure is retried too, so that
        a plain failure is a first call that did not want one. */
    method SslWrite(ssl: bool, data: string) returns (res: SocketResult, sendLength: int)
      modifies `script, `wire, `calls, `moved
      ensures SslDecides(ssl, old(script), calls - old(calls)) && script == From(old(script), calls - old(calls))
      ensures res == SslResult(old(script), calls - old(calls), sendLength > 0)
      ensures var n := calls - old(calls);
              && (n == 0 <==> !ssl) && n <= 1000
              && (n > 1 ==> Nth(old(script), 0).errorCode in {2, 3})
              && (forall i: nat | i < n - 1 :: Nth(old(script), i).ret < 0)
              && (res.resultCode == Success <==> sendLength > 0)
              && (n == 0 ==> res == SocketResult(Failed, 0))
              && (n > 0 ==>
                  var a := Nth(old(script), n - 1);
                  && (res.resultCode == Disconnected <==> a.ret >= 0 && sendLength == 0)
                  && (res.resultCode == RetryReachMaxCount <==> a.ret < 0 && n == 1000)
                  && (res.resultCode == Failed <==> a.ret < 0 && n == 1 && a.errorCode !in {2, 3})
                  && (a.ret < 0 ==> res.errorCode == a.errorCode) && (res.IsSuccess() ==> res.errorCode == 0)
                  && (res.resultCode == Disconnected ==>
                      res.errorCode == if n == 1 then 0 else Nth(old(script), n - 2).errorCode))
      ensures !ssl ==> sendLength == 0
      ensures ssl ==> var a := Nth(old(script), calls - old(calls) - 1);
                      sendLength == if a.ret < 0 then -1 else Accepted(a, |data|)
      ensures -1 <= sendLength <= |data|
      ensures wire == old(wire) + if sendLength > 0 then data[..sendLength] else ""
      ensures res.IsSuccess() <==> sendLength > 0
      ensures moved == res
      ensures |script| <= |old(script)| && (res.IsSuccess() ==> |script| < |old(script)|)
    {
      hide From, Nth;
      Asking(script, 0);
      res := SocketResult(Success, 0);
      if !ssl {
        res, sendLength := res.(resultCode := Failed), 0;
        moved := res;
        return;
      }
      sendLength := 0;
      var isNeedRetry := false;
      var retryCount := 0;
      while true
        invariant 0 <= retryCount < MAX_RETRY_COUNT && calls == old(calls) + retryCount
        invariant retryCount > 0 <==> isNeedRetry
        invariant wire == old(wire)
        invariant script == From(old(script), retryCount)
        invariant forall i: nat | i < retryCount :: Nth(old(script), i).ret < 0
        invariant retryCount > 0 ==> WantsRetry(Nth(old(script), 0).errorCode)
        invariant res.errorCode == if retryCount == 0 then 0 else Nth(old(script), retryCount - 1).errorCode
        decreases MAX_RETRY_COUNT - retryCount
      {
        Asking(old(script), retryCount);
        retryCount := retryCount + 1;
        var error;
        sendLength, error := SysSend(data);
        if sendLength == 0 {
          res := res.(resultCode := Disconnected);
          break;
        } else if sendLength < 0 {
          res := SocketResult(Failed, error);
          if retryCount >= MAX_RETRY_COUNT {
            res := res.(resultCode := RetryReachMaxCount);
            break;
          }
          if WantsRetry(error) {
            isNeedRetry := true;
          }
        } else {
          res := SocketResult(Success, 0);
          break;
        }
        if !isNeedRetry {
          break;
        }
      }
      moved := res;
    }

    /** SSLManager::read. */
    method SslRead(ssl: bool) returns (res: SocketResult, data: string)
      modifies `script, `parts, `calls, `moved, `closed
      ensures SslDecides(ssl, old(script), calls - old(calls)) && script == From(old(script), calls - old(calls))
      ensures res == SslResult(old(script), calls - old(calls), data != "")
      ensures var n := calls - old(calls);
              && (n == 0 <==> !ssl) && n <= 1000
              && (n > 1 ==> Nth(old(script), 0).errorCode in {2, 3})
              && (forall i: nat | i < n - 1 :: Nth(old(script), i).ret < 0)
              && (res.resultCode == Success <==> data != "")
              && (n == 0 ==> res == SocketResult(Failed, 0) && !closed)
              && (n > 0 ==>
                  var a := Nth(old(script), n - 1);
                  && (res.resultCode == Disconnected <==> a.ret >= 0 && data == "")
                  && (res.resultCode == RetryReachMaxCount <==> a.ret < 0 && n == 1000)
                  && (res.resultCode == Failed <==> a.ret < 0 && n == 1 && a.errorCode !in {2, 3})
                  && (a.ret < 0 ==> res.errorCode == a.errorCode) && (res.IsSuccess() ==> res.errorCode == 0)
                  && (res.resultCode == Disconnected ==>
                      res.errorCode == if n == 1 then 0 else Nth(old(script), n - 2).errorCode)
                  && (closed <==> a.ret >= 0 && data == ""))
      ensures data == if ssl then Taken(Nth(old(script), calls - old(calls) - 1)) else ""
      ensures parts == old(parts) + if data == "" then [] else [data]
      ensures res.IsSuccess() <==> data != ""
      ensures res.resultCode != Retry
      ensures moved == res
      ensures |script| <= |old(script)| && (res.IsSuccess() ==> |script| < |old(script)|)
    {
      hide From, Nth, Taken;
      Asking(script, 0);
      res := SocketResult(Success, 0);
      data := "";
      if !ssl {
        res := res.(resultCode := Failed);
        moved, closed := res, false;
        return;
      }
      var isNeedRetry := false;
      var retryCount := 0;
      while true
        invariant 0 <= retryCount < MAX_RETRY_COUNT && calls == old(calls) + retryCount
        invariant retryCount > 0 <==> isNeedRetry
        invariant parts == old(parts) && data == ""
        invariant script == From(old(script), retryCount)
        invariant forall i: nat | i < retryCount :: Nth(old(script), i).ret < 0
        invariant retryCount > 0 ==> WantsRetry(Nth(old(script), 0).errorCode)
        invariant res.errorCode == if retryCount == 0 then 0 else Nth(old(script), retryCount - 1).errorCode
        decreases MAX_RETRY_COUNT - retryCount
      {
        Asking(old(script), retryCount);
        retryCount := retryCount + 1;
        var recvLength, error, bytes := SysRecv();
        if recvLength == 0 {
          res := res.(resultCode := Disconnected);
          break;
        } else if recvLength < 0 {
          res := SocketResult(Failed, error);
          if retryCount >= MAX_RETRY_COUNT {
            res := res.(resultCode := RetryReachMaxCount);
            break;
          }
          if WantsRetry(error) {
            isNeedRetry := true;
          }
        } else {
          res := SocketResult(Success, 0);
          data := bytes;
          break;
        }
        if !isNeedRetry {
          break;
        }
      }
      moved, closed := res, res.resultCode == Disconnected;
    }
  }
}
