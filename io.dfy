/** The operating-system side of the tool, reduced to values: the standard
    input and a map from path to file-system entry. `get_read` (in
    `src/utils.rs` and, as a private copy, in `src/process/base64_convert.rs`)
    picks standard input for the sentinel `-` and opens any other string as a
    file; `fs::read` reads a whole file; `fs::write` replaces one. */
module Io {
  import opened Common
  import Utf8

  /** What a path names. `File::open` succeeds on a directory but reading from it
      fails, which is how a read error reaches the `?` after `read_to_end`. */
  datatype Entry = RegularFile(content: seq<byte>) | Directory

  datatype Env = Env(stdin: seq<byte>, files: map<string, Entry>)

  /** The input argument that stands for standard input. */
  const STDIN_SENTINEL: string := "-"

  /** An opened byte source: the bytes it delivers, or that reading it fails. */
  datatype Stream = Stream(data: seq<byte>, readable: bool)

  /** `get_read`: standard input for the sentinel, otherwise the named file, which
      must exist. */
  function GetRead(env: Env, input: string): (r: Result<Stream>)
    ensures input == STDIN_SENTINEL ==> r == Ok(Stream(env.stdin, true))
    ensures input != STDIN_SENTINEL ==> (r.Ok? <==> input in env.files)
    ensures input != STDIN_SENTINEL && input !in env.files ==> r == Err(NotFound)
    ensures r.Ok? && input != STDIN_SENTINEL ==>
      && (r.value.readable <==> env.files[input].RegularFile?)
      && (r.value.readable ==> r.value.data == env.files[input].content)
  {
    if input == STDIN_SENTINEL then Ok(Stream(env.stdin, true))
    else if input !in env.files then Err(NotFound)
    else match env.files[input]
      case RegularFile(content) => Ok(Stream(content, true))
      case Directory => Ok(Stream([], false))
  }

  /** The sentinel is never looked up in the file system, even when a file of that
      name exists. */
  lemma SentinelIsStdin(env: Env)
    requires STDIN_SENTINEL in env.files
    ensures GetRead(env, STDIN_SENTINEL) == Ok(Stream(env.stdin, true))
  {
  }

  /** What reading a freshly opened stream to its end yields. */
  function ReadAll(s: Stream): (r: Result<seq<byte>>)
    ensures r.Ok? <==> s.readable
    ensures r.Ok? ==> r.value == s.data
    ensures r.Err? ==> r.error == IoFailure
  {
    if s.readable then Ok(s.data) else Err(IoFailure)
  }

  /** `fs::read`: the whole content of a regular file. No sentinel here. */
  function ReadFile(env: Env, path: string): (r: Result<seq<byte>>)
    ensures r.Ok? <==> path in env.files && env.files[path].RegularFile?
    ensures r.Ok? ==> r.value == env.files[path].content
    ensures path !in env.files ==> r == Err(NotFound)
  {
    if path !in env.files then Err(NotFound)
    else match env.files[path]
      case RegularFile(content) => Ok(content)
      case Directory => Err(IoFailure)
  }

  /** A `Box<dyn Read>`: consumed in place by the reads. */
  class Reader {
    var rest: seq<byte>
    const readable: bool

    constructor (s: Stream)
      ensures rest == s.data && readable == s.readable
    {
      rest := s.data;
      readable := s.readable;
    }

    /** `read_to_end(&mut buf)`: appends everything left to `buf`. */
    method ReadToEnd(buf: seq<byte>) returns (r: Result<seq<byte>>)
      modifies this
      ensures readable ==> r == Ok(buf + old(rest)) && rest == []
      ensures !readable ==> r == Err(IoFailure) && rest == old(rest)
    {
      if !readable {
        return Err(IoFailure);
      }
      r := Ok(buf + rest);
      rest := [];
    }

    /** `read_to_string(&mut buf)`: reads everything left and appends it to `buf`
        as text; when the bytes are not UTF-8 it fails and `buf` stays as it was. */
    method ReadToString(buf: string) returns (r: Result<string>)
      modifies this
      ensures readable ==> rest == []
      ensures readable ==> r == match Utf8.Decode(old(rest))
                                case Some(text) => Ok(buf + text)
                                case None => Err(InvalidUtf8)
      ensures !readable ==> r == Err(IoFailure) && rest == old(rest)
    {
      var bytes := ReadToEnd([]);
      if bytes.Err? {
        return Err(bytes.error);
      }
      assert bytes.value == old(rest);
      var text := Utf8.Decode(bytes.value);
      if text.None? {
        return Err(InvalidUtf8);
      }
      r := Ok(buf + text.value);
    }
  }

  /** `fs::write` fails on a path that names a directory. */
  predicate Writable(files: map<string, Entry>, path: string)
  {
    !(path in files && files[path].Directory?)
  }

  /** The files the key generator writes to. */
  class FileSystem {
    var files: map<string, Entry>

    constructor (initial: map<string, Entry>)
      ensures files == initial
    {
      files := initial;
    }

    /** `fs::write`: creates or replaces the file at `path`. */
    method Write(path: string, data: seq<byte>) returns (r: Result<()>)
      modifies this
      ensures Writable(old(files), path) ==> r == Ok(()) && files == old(files)[path := RegularFile(data)]
      ensures !Writable(old(files), path) ==> r == Err(IoFailure) && files == old(files)
    {
      if !Writable(files, path) {
        return Err(IoFailure);
      }
      files := files[path := RegularFile(data)];
      r := Ok(());
    }
  }

  /** `Path::join` with a relative, separator-free name: a `/` goes between the two
      unless the directory is empty or already ends with one. */
  function Join(dir: string, name: string): (r: string)
    ensures |r| >= |name| && r[|r| - |name|..] == name
    ensures r[..|r| - |name|] == dir || r[..|r| - |name|] == dir + "/"
  {
    if dir == [] || dir[|dir| - 1] == '/' then dir + name else dir + "/" + name
  }
}
