/** A map kept in a file that several processes hold open, as the roster and the enrollment store
    do (hub/roster.go, hub/enroll.go). A handle re-reads the file when its modification time is
    not the one it last saw, and records the time of its own writes. Encoding is ideal. */
module SharedFile {
  import opened Wrappers

  datatype File<V> = Missing | Present(content: map<string, V>, modTime: int)

  /** `loaded` is the modification time last seen, None before the first. */
  datatype Handle<V> = Handle(entries: map<string, V>, loaded: Option<int>)

  function Refreshed<V>(h: Handle<V>, f: File<V>): Handle<V> {
    if f.Missing? || h.loaded == Some(f.modTime) then h else Handle(f.content, Some(f.modTime))
  }

  class Disk<V> {
    var file: File<V>

    constructor (file: File<V>)
      ensures this.file == file
    {
      this.file := file;
    }

    /** Replaces the file. `io` is its new modification time, or None when writing fails. */
    method Write(content: map<string, V>, io: Option<int>) returns (ok: bool)
      modifies this
      ensures ok == io.Some?
      ensures file == if io.Some? then Present(content, io.value) else old(file)
    {
      ok := io.Some?;
      if ok {
        file := Present(content, io.value);
      }
    }
  }

  /** A handle that has seen the file as it is holds what the file holds. */
  ghost predicate Coherent<V>(h: Handle<V>, f: File<V>) {
    f.Present? && (h.loaded == Some(f.modTime) ==> h.entries == f.content)
  }

  /** Refreshing a coherent handle gives it the file's content, whoever wrote it. */
  lemma RefreshSeesTheFile<V>(h: Handle<V>, f: File<V>)
    requires Coherent(h, f)
    ensures Refreshed(h, f).entries == f.content && Refreshed(h, f).loaded == Some(f.modTime)
  {
  }
}
