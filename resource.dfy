/**
 * DoRequest: the target path under the document root, and the ladder of
 * checks that decides how the request is answered. `stat`, `open` and
 * `mmap` are answered by a model of the file system.
 */
module Resource {
  import opened Wrappers
  import opened Bytes
  import opened HttpDefs

  /** "/index.html", served for the target "/". */
  const IndexPage: seq<byte> := [47, 105, 110, 100, 101, 120, 46, 104, 116, 109, 108]

  lemma IndexPageSpelled()
    ensures IndexPage == Lit("/index.html")
  {
  }

  /** How many bytes of the target `strncpy` may copy after the root. */
  function PathRoom(): nat {
    FileNameLen - |ResourceRoot| - 1
  }

  /** The part of `stat`'s answer the server looks at. */
  datatype FileInfo = FileInfo(otherRead: bool, isDir: bool, size: nat)

  /**
   * The file system as the server sees it: what `stat` answers for each
   * path it knows, and the paths `open` succeeds on.
   */
  datatype FileSystem = FileSystem(stats: map<seq<byte>, FileInfo>, openable: set<seq<byte>>)

  /**
   * The outcome of DoRequest: the verdict, what `stat` wrote into
   * `file_stat_` (None when `stat` failed and left it alone), and whether
   * the file was mapped.
   */
  datatype Resolution = Resolution(code: HttpCode, stat: Option<FileInfo>, mapped: bool)

  /**
   * The path DoRequest builds, with the terminator it evidently intends:
   * the root, then "/index.html" for the target "/" and otherwise the
   * target, cut to the room `strncpy` is given, and a NUL in the 200th
   * byte.
   */
  function TargetPath(url: seq<byte>): seq<byte> {
    var src := if url == [SLASH] then IndexPage else url;
    ResourceRoot + (if |src| <= PathRoom() then src else src[..PathRoom()])
  }

  /**
   * The path as written: `strncpy` writes a terminator only when the text
   * is shorter than the room it is given. None stands for a path left
   * without a terminator in the 200-byte buffer, which `stat` and `open`
   * then read past.
   */
  function TargetPathAsWritten(url: seq<byte>): Option<seq<byte>> {
    var src := if url == [SLASH] then IndexPage else url;
    if |src| < PathRoom() then Some(ResourceRoot + src) else None
  }

  /** The ladder of DoRequest, in its order: existence, permission, kind, open. */
  function Resolve(path: seq<byte>, fs: FileSystem): Resolution {
    if path !in fs.stats then Resolution(NoResource, None, false)
    else
      var st := fs.stats[path];
      if !st.otherRead then Resolution(ForbiddenRequest, Some(st), false)
      else if st.isDir then Resolution(BadRequest, Some(st), false)
      else if path !in fs.openable then Resolution(NoResource, Some(st), false)
      else Resolution(FileRequest, Some(st), true)
  }

  /**
   * The intended path always starts with the root and fits the 200-byte
   * buffer with its terminator; the root is 46 bytes, so 153 bytes of the
   * target fit. A target that fits is recovered whole after the root; a
   * longer one is cut; "/" becomes the index page.
   */
  lemma TargetPathSpec(url: seq<byte>)
    ensures var path := TargetPath(url);
      && |ResourceRoot| == 46 && PathRoom() == 153
      && path[..|ResourceRoot|] == ResourceRoot
      && |path| <= FileNameLen - 1
      && (url == [SLASH] ==> path[|ResourceRoot|..] == IndexPage)
      && (url != [SLASH] && |url| <= PathRoom() ==> path[|ResourceRoot|..] == url)
      && (|url| > PathRoom() ==> path[|ResourceRoot|..] == url[..PathRoom()])
  {
    var path := TargetPath(url);
    assert path[..|ResourceRoot|] == ResourceRoot;
  }

  /**
   * As written, a target of 153 bytes or more leaves the path without a
   * terminator; every shorter one gives the intended path.
   */
  lemma LongTargetUnterminated(url: seq<byte>)
    ensures TargetPathAsWritten(url).None? <==> |url| >= PathRoom()
    ensures TargetPathAsWritten(url).Some? ==> TargetPathAsWritten(url).value == TargetPath(url)
  {
    assert |IndexPage| < PathRoom();
  }

  /**
   * DoRequest answers FILE_REQUEST, with the file mapped, exactly for a
   * path that exists, is readable by others, is not a directory and opens.
   * Otherwise: a missing path or a failed open is NO_RESOURCE, a path
   * others cannot read is FORBIDDEN_REQUEST whatever its kind, and a
   * readable directory is BAD_REQUEST. `file_stat_` holds what `stat`
   * answered whenever the path exists.
   */
  lemma ResolveSpec(path: seq<byte>, fs: FileSystem)
    ensures var r := Resolve(path, fs);
      && (r.code == FileRequest <==>
            path in fs.stats && fs.stats[path].otherRead && !fs.stats[path].isDir && path in fs.openable)
      && (r.mapped <==> r.code == FileRequest)
      && (r.code == ForbiddenRequest <==> path in fs.stats && !fs.stats[path].otherRead)
      && (r.code == BadRequest <==> path in fs.stats && fs.stats[path].otherRead && fs.stats[path].isDir)
      && (r.code == NoResource <==>
            path !in fs.stats || (fs.stats[path].otherRead && !fs.stats[path].isDir && path !in fs.openable))
      && (r.stat.Some? <==> path in fs.stats)
      && (r.stat.Some? ==> r.stat.value == fs.stats[path])
  {
  }
}
