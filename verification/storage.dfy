/** The file operations of the storage component, with every way they can come out. */
module Storage {
  import opened Base

  type Files = map<string, bytes>

  /**
   How one storage call comes out: it works; it moves only some of the bytes; it
   moves only some and does not say so, because fclose could not flush what
   fwrite had taken; or it cannot open, stat or unlink the file (for an
   allocation: no memory). `junk` is what the unread tail of a read buffer
   happens to contain.
   */
  datatype Outcome = Success(junk: bytes) | Short(moved: nat, junk: bytes) | Lost(moved: nat, junk: bytes) | Fails

  /** The environment's choice for the next call; past the end of the script calls succeed. */
  function Head(script: seq<Outcome>): Outcome {
    if script == [] then Success([]) else script[0]
  }

  function Tail(script: seq<Outcome>): seq<Outcome> {
    if script == [] then [] else script[1..]
  }

  /** Storage never fails. */
  ghost predicate Quiet(script: seq<Outcome>) {
    forall o :: o in script ==> o.Success?
  }

  lemma QuietTail(script: seq<Outcome>)
    requires Quiet(script)
    ensures Head(script).Success? && Quiet(Tail(script))
  {
  }

  /** How many of `wanted` bytes the call moves. */
  function Moved(o: Outcome, wanted: nat): (n: nat)
    ensures n <= wanted
  {
    match o
    case Success(_) => wanted
    case Short(moved, _) => Min(moved, wanted)
    case Lost(moved, _) => Min(moved, wanted)
    case Fails => 0
  }

  function Fill(junk: bytes, n: nat): (r: bytes)
    ensures |r| == n
  {
    if n <= |junk| then junk[..n] else junk + Zeros(n - |junk|)
  }

  /** spiffs_storage_write_file in binary mode. */
  function Written(files: Files, path: string, data: bytes, append: bool, o: Outcome): (r: (bool, Files))
    ensures forall p :: p != path ==> (p in r.1 <==> p in files) && (p in files ==> r.1[p] == files[p])
    ensures r.0 && !o.Lost? ==> path in r.1 && r.1[path] == (if append && path in files then files[path] else []) + data
    ensures r.0 <==> data != [] && !o.Fails? && (o.Lost? || Moved(o, |data|) == |data|)
  {
    if data == [] || o.Fails? then (false, files)
    else
      var base := if append && path in files then files[path] else [];
      var n := Moved(o, |data|);
      (o.Lost? || n == |data|, files[path := base + data[..n]])
  }

  /** spiffs_storage_read_file: a short read still counts as success. */
  function ReadBack(files: Files, path: string, size: nat, o: Outcome): (r: Option<bytes>)
    ensures r.Some? ==> |r.value| == size
    ensures r.Some? <==> size != 0 && path in files && !o.Fails?
    ensures r.Some? && o.Success? && size <= |files[path]| ==> r.value == files[path][..size]
  {
    if size == 0 || path !in files || o.Fails? then None
    else
      var n := Moved(o, Min(size, |files[path]|));
      Some(files[path][..n] + Fill(o.junk, size - n))
  }

  function Exists(files: Files, path: string, o: Outcome): bool {
    path in files && !o.Fails?
  }

  /** spiffs_storage_get_file_size: -1 when stat fails. */
  function FileSize(files: Files, path: string, o: Outcome): int {
    if Exists(files, path, o) then |files[path]| else -1
  }

  /** spiffs_storage_delete_file */
  function Deleted(files: Files, path: string, o: Outcome): (r: (bool, Files)) {
    if Exists(files, path, o) then (true, files - {path}) else (false, files)
  }

  /** What a write that opens the file leaves there: what was there when appending, and what was moved. */
  lemma WriteLeaves(files: Files, path: string, data: bytes, append: bool, o: Outcome)
    ensures var (ok, files') := Written(files, path, data, append, o);
            if data == [] || o.Fails? then !ok && files' == files
            else
              var n := if o.Success? then |data| else Min(o.moved, |data|);
              && ok == (o.Lost? || n == |data|)
              && path in files'
              && files'[path] == (if append && path in files then files[path] else []) + data[..n]
  {
  }

  /** What a read puts into the buffer: as much of the file as is moved, then what happened to be there. */
  lemma ReadGives(files: Files, path: string, size: nat, o: Outcome)
    requires size != 0 && path in files && !o.Fails?
    ensures var r := ReadBack(files, path, size, o);
            var n := if o.Success? then Min(size, |files[path]|) else Min(o.moved, Min(size, |files[path]|));
            r.Some? && r.value[..n] == files[path][..n]
            && forall i :: n <= i < size && i - n < |o.junk| ==> r.value[i] == o.junk[i - n]
  {
  }

  /** A delete takes this file and no other. */
  lemma DeleteTakes(files: Files, path: string, o: Outcome)
    ensures var (ok, files') := Deleted(files, path, o);
            && ok == (path in files && !o.Fails?) && (path in files' <==> path in files && !ok)
            && forall p :: p != path ==> (p in files' <==> p in files) && (p in files ==> files'[p] == files[p])
  {
  }

  /** The mounted file system, together with the outcomes still to come. */
  class FileSystem {
    var files: Files
    var script: seq<Outcome>

    method NextOutcome() returns (o: Outcome)
      modifies this`script
      ensures o == Head(old(script)) && script == Tail(old(script))
    {
      if script == [] {
        o := Success([]);
      } else {
        o, script := script[0], script[1..];
      }
    }

    method WriteFile(path: string, data: bytes, append: bool) returns (ok: bool)
      modifies this
      ensures (ok, files) == Written(old(files), path, data, append, Head(old(script)))
      ensures script == if data == [] then old(script) else Tail(old(script))
    {
      if data == [] {
        return false;
      }
      var o := NextOutcome();
      if o.Fails? {
        return false;
      }
      // Opening for writing truncates; opening for appending creates the file if needed.
      if !append || path !in files {
        files := files[path := []];
      }
      var n := Moved(o, |data|);
      ghost var truncated := files;
      files := files[path := files[path] + data[..n]];
      assert truncated[path := files[path]] == old(files)[path := files[path]];
      ok := o.Lost? || n == |data|;
    }

    method ReadFile(path: string, size: nat) returns (r: Option<bytes>)
      modifies this`script
      ensures r == ReadBack(files, path, size, Head(old(script)))
      ensures script == if size == 0 then old(script) else Tail(old(script))
    {
      if size == 0 {
        return None;
      }
      var o := NextOutcome();
      if path !in files || o.Fails? {
        return None;
      }
      // A short read is only logged
      var n := Moved(o, Min(size, |files[path]|));
      r := Some(files[path][..n] + Fill(o.junk, size - n));
    }

    /** stat: the size of the file. */
    method Stat(path: string) returns (size: Option<nat>)
      modifies this`script
      ensures size.Some? <==> path in files && !Head(old(script)).Fails?
      ensures size.Some? ==> size.value == |files[path]|
      ensures script == Tail(old(script))
    {
      var o := NextOutcome();
      if path !in files || o.Fails? {
        return None;
      }
      size := Some(|files[path]|);
    }

    method FileExists(path: string) returns (b: bool)
      modifies this`script
      ensures b <==> path in files && !Head(old(script)).Fails?
      ensures script == Tail(old(script))
    {
      var size := Stat(path);
      b := size.Some?;
    }

    method GetFileSize(path: string) returns (n: int)
      modifies this`script
      ensures n == -1 <==> path !in files || Head(old(script)).Fails?
      ensures n != -1 ==> path in files && n == |files[path]|
      ensures script == Tail(old(script))
    {
      var size := Stat(path);
      if size.None? {
        return -1;
      }
      n := size.value;
    }

    method DeleteFile(path: string) returns (ok: bool)
      modifies this
      ensures (ok, files) == Deleted(old(files), path, Head(old(script)))
      ensures script == Tail(old(script))
    {
      var o := NextOutcome();
      ok := Exists(files, path, o);
      if ok {
        files := files - {path};
      }
    }

    /** malloc, which the source calls between two storage calls. */
    method Allocate() returns (ok: bool)
      modifies this`script
      ensures ok == !Head(old(script)).Fails? && script == Tail(old(script))
    {
      var o := NextOutcome();
      ok := !o.Fails?;
    }
  }
}
