/** The receive loop of the firmware upload handler. */
module Ota {
  import opened Base
  import opened CStr

  const BUFFER_SIZE := 1024
  const SEPARATOR: CString := [13, 10, 13, 10]

  /** What one httpd_req_recv call gives; no bytes mean that the peer has closed. */
  datatype Recv = Chunk(data: bytes) | Timeout | Broken

  /** What the handler does when its loop is over: give up, or close the update. */
  datatype Outcome = GaveUp | Finished

  /** How many chunks of data arrive before anything else. */
  function Leading(script: seq<Recv>): (n: nat)
    ensures n <= |script|
    ensures forall i :: 0 <= i < n ==> script[i].Chunk? && script[i].data != []
    ensures n < |script| ==> !(script[n].Chunk? && script[n].data != [])
  {
    if script == [] || !script[0].Chunk? || script[0].data == [] then 0 else 1 + Leading(script[1..])
  }

  function DataOf(r: Recv): bytes {
    if r.Chunk? then r.data else []
  }

  /** The bytes of the first `n` events. */
  function Arrived(script: seq<Recv>, n: nat): bytes
    requires n <= |script|
  {
    if n == 0 then [] else Arrived(script, n - 1) + DataOf(script[n - 1])
  }

  lemma {:induction false} ArrivedGrows(script: seq<Recv>, n: nat, m: nat)
    requires n <= m <= |script|
    ensures Arrived(script, n) <= Arrived(script, m)
    decreases m
  {
    if n == m {
    } else {
      ArrivedGrows(script, n, m - 1);
    }
  }

  /** What the server's receive calls for a body of this length can give. */
  ghost predicate Possible(contentLen: nat, script: seq<Recv>) {
    && (forall i :: 0 <= i < |script| ==> |DataOf(script[i])| <= Min(contentLen, BUFFER_SIZE))
    && |Arrived(script, |script|)| <= contentLen
  }

  /** The first chunk holds the blank line that ends the form header, with no NUL before it. */
  predicate StartsWithForm(script: seq<Recv>) {
    script != [] && (script[0].Chunk? ==> StrStr(script[0].data, SEPARATOR).Some?)
  }

  /** Where the firmware starts in what arrives. */
  function BodyStart(script: seq<Recv>): (k: nat)
    requires StartsWithForm(script) && script[0].Chunk?
    ensures 4 <= k <= |script[0].data|
  {
    StrStr(script[0].data, SEPARATOR).value + 4
  }

  /** What the first `n` events put into the partition. */
  function Written(script: seq<Recv>, n: nat): bytes
    requires 0 < n <= |script| && StartsWithForm(script) && script[0].Chunk?
    decreases n
  {
    if n == 1 then script[0].data[BodyStart(script)..] else Written(script, n - 1) + DataOf(script[n - 1])
  }

  lemma DropThenAppend(s: bytes, t: bytes, k: nat)
    requires k <= |s|
    ensures (s + t)[k..] == s[k..] + t
  {
  }

  lemma {:induction false} WrittenIsArrived(script: seq<Recv>, n: nat)
    requires 0 < n <= |script| && StartsWithForm(script) && script[0].Chunk?
    ensures BodyStart(script) <= |Arrived(script, n)|
    ensures Written(script, n) == Arrived(script, n)[BodyStart(script)..]
    decreases n
  {
    hide BodyStart, StrStr;
    if n == 1 {
      assert Arrived(script, 0) == [];
      assert Arrived(script, 1) == script[0].data;
    } else {
      WrittenIsArrived(script, n - 1);
      DropThenAppend(Arrived(script, n - 1), DataOf(script[n - 1]), BodyStart(script));
    }
  }

  lemma WrittenStaysBelow(contentLen: nat, script: seq<Recv>, n: nat)
    requires Possible(contentLen, script) && StartsWithForm(script) && 0 < n <= Leading(script)
    ensures |Written(script, n)| < contentLen
  {
    hide Arrived, Written, BodyStart, StrStr, Leading;
    WrittenIsArrived(script, n);
    ArrivedGrows(script, n, |script|);
  }

  lemma FirstWritten(script: seq<Recv>)
    requires StartsWithForm(script) && script[0].Chunk?
    ensures Leading(script) > 0
    ensures Written(script, 1) == script[0].data[BodyStart(script)..]
  {
  }

  lemma NextWritten(script: seq<Recv>, n: nat)
    requires StartsWithForm(script) && script[0].Chunk? && 0 < n < |script|
    ensures Written(script, n + 1) == Written(script, n) + DataOf(script[n])
  {
  }

  /** The pointer behind the blank line, found in a buffer that may hold anything behind the chunk. */
  method FormEnd(buffer: array<byte>, script: seq<Recv>) returns (start: nat)
    requires StartsWithForm(script) && script[0].Chunk? && script[0].data <= buffer[..]
    ensures start == BodyStart(script)
  {
    hide UpToNul, Find;
    StrStrInBuffer(script[0].data, buffer[..], SEPARATOR);
    start := StrStr(buffer[..], SEPARATOR).value + 4;
  }

  /** httpd_req_recv: the chunk at the start of the buffer, the rest as it was. */
  method Fill(buffer: array<byte>, data: bytes)
    requires |data| <= buffer.Length
    modifies buffer
    ensures buffer[..] == data + old(buffer[|data|..])
  {
    forall i | 0 <= i < |data| {
      buffer[i] := data[i];
    }
  }

  /**
   The loop. A failed begin or a broken connection gives up; a timeout, in spite
   of the `continue`, ends the loop like a closed connection. Nothing else does:
   `received` stays below `contentLen`.
   */
  method ReceiveUpload(contentLen: nat, script: seq<Recv>, beginOk: bool)
    returns (outcome: Outcome, flash: bytes, calls: nat)
    requires Possible(contentLen, script) && StartsWithForm(script)
    ensures Leading(script) == 0 || !beginOk ==> flash == [] && calls == 1
    ensures Leading(script) > 0 && beginOk ==> flash == Written(script, Leading(script)) && calls == Leading(script) + 1
    ensures outcome.GaveUp? <==>
              || (Leading(script) > 0 && !beginOk)
              || (Leading(script) < |script| && script[Leading(script)].Broken?)
  {
    hide Written, BodyStart, StrStr, Leading, Arrived;
    var buffer := new byte[BUFFER_SIZE];
    var received: nat := 0;
    var more := true;
    ghost var n := Leading(script);
    flash, calls := [], 0;
    while more
      invariant more ==> calls <= n
      invariant !more ==> calls == n + 1 && !(n < |script| && script[n].Broken?)
      invariant calls == 0 || n == 0 ==> flash == []
      invariant 0 < calls && n > 0 ==> beginOk && flash == Written(script, Min(calls, n))
      invariant received == |flash|
      decreases more, n + 1 - calls
    {
      var event := if calls < |script| then script[calls] else Chunk([]);
      if event.Broken? {
        return GaveUp, flash, calls + 1;
      }
      if event.Timeout? {
        more := false;
      } else {
        var length := |event.data|;
        Fill(buffer, event.data);
        if calls == 0 {
          var start := FormEnd(buffer, script);
          if !beginOk {
            return GaveUp, [], 1;
          }
          flash := flash + buffer[start..length];
          received := received + (length - start);
          FirstWritten(script);
        } else {
          flash := flash + buffer[..length];
          received := received + length;
          if length > 0 {
            NextWritten(script, calls);
          }
        }
        if length > 0 {
          WrittenStaysBelow(contentLen, script, calls + 1);
        }
        more := length > 0 && received < contentLen;
      }
      calls := calls + 1;
    }
    outcome := Finished;
  }

  /** The firmware in an upload: what stands behind its first blank line. */
  function Firmware(upload: bytes): (r: bytes)
    requires Contains(upload, [13, 10, 13, 10])
  {
    upload[Find(upload, [13, 10, 13, 10]).value + 4..]
  }

  lemma SameFirmware(chunk: bytes, upload: bytes)
    requires chunk <= upload && StrStr(chunk, SEPARATOR).Some?
    ensures Find(upload, SEPARATOR) == StrStr(chunk, SEPARATOR)
  {
    hide UpToNul, Find;
    assert UpToNul(chunk) <= upload;
    FirstStays(UpToNul(chunk), upload, SEPARATOR);
  }

  /**
   However an upload is cut into chunks, what is written is a beginning of the
   firmware, and all of it exactly if the whole upload arrived.
   */
  lemma UploadIsWritten(upload: bytes, script: seq<Recv>)
    requires StartsWithForm(script) && Leading(script) > 0
    requires Arrived(script, Leading(script)) <= upload
    ensures Contains(upload, [13, 10, 13, 10])
    ensures Written(script, Leading(script)) <= Firmware(upload)
    ensures Written(script, Leading(script)) == Firmware(upload) <==> Arrived(script, Leading(script)) == upload
  {
    hide Written, Leading;
    var first, n := script[0].data, Leading(script);
    assert Arrived(script, 1) == first;
    ArrivedGrows(script, 1, n);
    WrittenIsArrived(script, n);
    SameFirmware(first, upload);
    var start, all := BodyStart(script), Arrived(script, n);
    assert start == Find(upload, SEPARATOR).value + 4;
    assert Firmware(upload)[..|all| - start] == all[start..];
  }
}
