/** The operating-system view the duplicate cleaner works against: paths,
    file contents, symlink resolution, open/read, getsize and remove,
    with the failures each of them can raise. */
module FileSystem {

  newtype Byte = b: int | 0 <= b < 256

  type Path = string

  datatype Option<+T> = None | Some(value: T)

  /** What stays fixed during one scan: symlink resolution (a path absent
      from `resolve` makes realpath raise OSError), paths whose `open`
      raises OSError, paths whose removal raises PermissionError, and paths
      whose removal raises any other OSError. */
  datatype Env = Env(
    resolve: map<Path, Path>,
    unreadable: set<Path>,
    protected: set<Path>,
    faulty: set<Path>)

  /** The three ways `os.remove` can end. */
  datatype RemoveOutcome = Removed | PermissionDenied | Failed

  /** `os.path.realpath`; None stands for the OSError it may raise. */
  function Realpath(env: Env, p: Path): (r: Option<Path>)
    ensures r.Some? <==> p in env.resolve
  {
    if p in env.resolve then Some(env.resolve[p]) else None
  }

  /** `os.path.getsize`: needs only that the file exists. */
  function SizeOf(files: map<Path, seq<Byte>>, p: Path): (r: Option<nat>)
    ensures r.Some? <==> p in files
    ensures r.Some? ==> r.value == |files[p]|
  {
    if p in files then Some(|files[p]|) else None
  }

  /** `open(p, "rb")` followed by reading: fails when the file is gone
      or cannot be read. */
  function ReadBytes(files: map<Path, seq<Byte>>, env: Env, p: Path): (r: Option<seq<Byte>>)
    ensures r.Some? <==> p in files && p !in env.unreadable
    ensures r.Some? ==> r.value == files[p]
  {
    if p in files && p !in env.unreadable then Some(files[p]) else None
  }

  /** The outcome of `os.remove(p)`. A missing file raises
      FileNotFoundError, which is not a PermissionError. */
  function RemovalOutcome(files: map<Path, seq<Byte>>, env: Env, p: Path): (r: RemoveOutcome)
    ensures r == Removed ==> p in files
    ensures r == PermissionDenied <==> p in files && p in env.protected
  {
    if p !in files then Failed
    else if p in env.protected then PermissionDenied
    else if p in env.faulty then Failed
    else Removed
  }

  /** The files left after a removal that ended with `outcome`. */
  function AfterRemoval(files: map<Path, seq<Byte>>, p: Path, outcome: RemoveOutcome): (r: map<Path, seq<Byte>>)
    ensures r.Keys <= files.Keys
    ensures forall q :: q in r ==> r[q] == files[q]
    ensures outcome == Removed ==> p !in r && r.Keys == files.Keys - {p}
    ensures outcome != Removed ==> r == files
  {
    if outcome == Removed then files - {p} else files
  }

  /** True when `s` holds two consecutive backslashes. */
  predicate HasDoubleBackslash(s: string)
  {
    exists i :: 0 <= i < |s| - 1 && s[i] == '\\' && s[i + 1] == '\\'
  }

  /** The backslash replacement applied to a name before removal: every
      non-overlapping pair of backslashes, scanned from the left, becomes
      one backslash. */
  function Unescape(s: string): (r: string)
    ensures !HasDoubleBackslash(s) ==> r == s
    ensures HasDoubleBackslash(s) ==> |r| < |s|
    decreases |s|
  {
    if |s| >= 2 && s[0] == '\\' && s[1] == '\\' then
      ['\\'] + Unescape(s[2..])
    else if s == [] then
      []
    else
      assert HasDoubleBackslash(s) <==> HasDoubleBackslash(s[1..]) by {
        if HasDoubleBackslash(s) {
          var i :| 0 <= i < |s| - 1 && s[i] == '\\' && s[i + 1] == '\\';
          assert s[1..][i - 1] == '\\' && s[1..][i] == '\\';
        }
        if HasDoubleBackslash(s[1..]) {
          var i :| 0 <= i < |s[1..]| - 1 && s[1..][i] == '\\' && s[1..][i + 1] == '\\';
          assert s[i + 1] == '\\' && s[i + 2] == '\\';
        }
      }
      [s[0]] + Unescape(s[1..])
  }

  /** An open binary file: its bytes and the read position. */
  class BinaryFile {
    var data: seq<Byte>
    var pos: nat

    ghost predicate Valid()
      reads this
    {
      pos <= |data|
    }

    /** The bytes not read yet. */
    function Remaining(): (r: seq<Byte>)
      reads this
      requires Valid()
      ensures data == data[..pos] + r
    {
      data[pos..]
    }

    constructor Open(content: seq<Byte>)
      ensures Valid() && data == content && pos == 0
    {
      data := content;
      pos := 0;
    }

    /** `f.read(n)`: at most `n` bytes from the current position; empty
        exactly at end of file (or when `n` is 0). */
    method Read(n: nat) returns (chunk: seq<Byte>)
      requires Valid()
      modifies this
      ensures Valid() && data == old(data)
      ensures |chunk| == if n < |old(Remaining())| then n else |old(Remaining())|
      ensures old(Remaining()) == chunk + Remaining()
      ensures pos == old(pos) + |chunk|
    {
      var end := if pos + n < |data| then pos + n else |data|;
      chunk := data[pos..end];
      pos := end;
    }
  }

  /** The mutable filesystem: the files present now and the fixed
      environment. Only `Remove` changes it. */
  class Disk {
    var files: map<Path, seq<Byte>>
    const env: Env

    constructor (files: map<Path, seq<Byte>>, env: Env)
      ensures this.files == files && this.env == env
    {
      this.files := files;
      this.env := env;
    }

    method GetSize(p: Path) returns (r: Option<nat>)
      ensures r == SizeOf(files, p)
    {
      r := SizeOf(files, p);
    }

    /** `open(p, "rb")`: a fresh file positioned at its start, or None for
        the OSError. */
    method Open(p: Path) returns (r: Option<BinaryFile>)
      ensures r.None? <==> ReadBytes(files, env, p).None?
      ensures r.Some? ==> fresh(r.value) && r.value.Valid() && r.value.pos == 0
      ensures r.Some? ==> r.value.data == ReadBytes(files, env, p).value
    {
      if p in files && p !in env.unreadable {
        var f := new BinaryFile.Open(files[p]);
        r := Some(f);
      } else {
        r := None;
      }
    }

    /** `os.remove(p)`. */
    method Remove(p: Path) returns (outcome: RemoveOutcome)
      modifies this
      ensures outcome == RemovalOutcome(old(files), env, p)
      ensures files == AfterRemoval(old(files), p, outcome)
    {
      outcome := RemovalOutcome(files, env, p);
      if outcome == Removed {
        files := files - {p};
      }
    }
  }
}
