/** The log file of Mylog: appended line by line, and cut back to its last lines when it grows too long. */
module LogFile {
  import opened Options

  /** The part of a C string before its terminator. */
  function CString(s: string): string {
    if s == [] || s[0] == '\0' then [] else [s[0]] + CString(s[1..])
  }

  /** strchr(s, '\n'): the index of the first newline. */
  function FindNewline(s: string): (r: Option<nat>)
    ensures r.Some? <==> '\n' in s
    ensures r.Some? ==> r.value < |s| && s[r.value] == '\n' && '\n' !in s[..r.value]
  {
    if s == [] then None
    else if s[0] == '\n' then Some(0)
    else
      var rest := FindNewline(s[1..]);
      if rest.None? then None
      else
        assert s[..rest.value + 1] == [s[0]] + s[1..][..rest.value];
        Some(rest.value + 1)
  }

  const TAIL := 2047  // sizeof(tmp) - 1

  /** What fread leaves in tmp: the last 2047 bytes, or all of a shorter file (fseek fails and stays at 0). */
  function Tail(file: string): string {
    if |file| < TAIL then file else file[|file| - TAIL..]
  }

  /** The file after shrinkLogFile; None when strchr finds no newline and the code would step off a null pointer. */
  function Shrunk(file: string): Option<string> {
    var tmp := CString(Tail(file));
    var pos := FindNewline(tmp);
    if pos.None? then None else Some(tmp[pos.value + 1..])
  }

  predicate TooLong(size: int, max: int) { size as real > 1.2 * max as real }

  function CheckedSize(file: string, max: int): Option<string> {
    if TooLong(|file|, max) then Shrunk(file) else Some(file)
  }

  // ---- What a log file looks like ----

  /** Empty or newline-terminated, without NUL bytes. */
  predicate Text(s: string) {
    (s == [] || s[|s| - 1] == '\n') && '\0' !in s
  }

  /** file is a suffix of all, and starts where a line of all starts. */
  predicate LineSuffix(file: string, all: string) {
    && |file| <= |all|
    && file == all[|all| - |file|..]
    && (|file| < |all| ==> all[|all| - |file| - 1] == '\n')
  }

  lemma {:induction false} CStringOfText(s: string)
    requires '\0' !in s
    ensures CString(s) == s
  {
    if s != [] {
      CStringOfText(s[1..]);
    }
  }

  lemma TailOfText(file: string)
    requires Text(file) && file != []
    ensures var tmp := Tail(file);
            |tmp| <= |file| && tmp == file[|file| - |tmp|..] && CString(tmp) == tmp && '\n' in tmp && |tmp| <= TAIL
  {
    var tmp := Tail(file);
    assert tmp == file[|file| - |tmp|..];
    CStringOfText(tmp);
    assert tmp[|tmp| - 1] == '\n';
  }

  /** What shrinkLogFile reads, and where strchr finds a newline in it. */
  lemma ShrunkTail(file: string) returns (tmp: string, pos: nat)
    requires Text(file) && file != []
    ensures |tmp| <= |file| && tmp == file[|file| - |tmp|..] && |tmp| <= TAIL
    ensures pos < |tmp| && tmp[pos] == '\n' && '\n' !in tmp[..pos] && Shrunk(file) == Some(tmp[pos + 1..])
    ensures |tmp| == TAIL || |tmp| == |file|
  {
    TailOfText(file);
    tmp := Tail(file);
    pos := FindNewline(tmp).value;
  }

  /** Shrinking a non-empty text finds a newline, keeps whole lines from the end, and at most 2046 bytes. */
  lemma ShrunkText(file: string, all: string)
    requires Text(file) && file != [] && LineSuffix(file, all)
    ensures var r := Shrunk(file);
            r.Some? && |r.value| <= 2046 && Text(r.value) && LineSuffix(r.value, all)
  {
    var tmp, pos := ShrunkTail(file);
    TextAfterNewline(file, tmp, pos);
    SuffixAfterNewline(file, all, tmp, pos);
  }

  lemma TextAfterNewline(file: string, tmp: string, pos: nat)
    requires Text(file)
    requires |tmp| <= |file| && tmp == file[|file| - |tmp|..] && pos < |tmp|
    ensures Text(tmp[pos + 1..])
  {
    var kept := tmp[pos + 1..];
    assert forall i :: 0 <= i < |kept| ==> kept[i] in file;
    if kept != [] {
      assert kept[|kept| - 1] == file[|file| - 1];
    }
  }

  lemma SuffixAfterNewline(file: string, all: string, tmp: string, pos: nat)
    requires LineSuffix(file, all)
    requires |tmp| <= |file| && tmp == file[|file| - |tmp|..] && pos < |tmp| && tmp[pos] == '\n'
    ensures LineSuffix(tmp[pos + 1..], all)
  {
    var start := |all| - |tmp|;
    assert tmp == all[start..];
    assert tmp[pos + 1..] == all[start + pos + 1..];
    assert all[start + pos] == '\n';
  }

  /**
   What is kept begins behind the first newline among the last 2047 bytes: of the proper suffixes of the
   file that start a line and are at most 2046 bytes long, it is the longest.
   */
  lemma ShrinkKeepsTheMost(file: string)
    requires Text(file) && file != []
    ensures var r := Shrunk(file);
            && r.Some? && |r.value| < |file| && r.value == file[|file| - |r.value|..]
            && file[|file| - |r.value| - 1] == '\n'
            && forall i :: 0 <= i < |file| - |r.value| - 1 && |file| - 2047 <= i ==> file[i] != '\n'
  {
    var tmp, pos := ShrunkTail(file);
    var start := |file| - |tmp|;
    assert tmp[pos + 1..] == file[start + pos + 1..];
    forall i | 0 <= i < start + pos && |file| - 2047 <= i
      ensures file[i] != '\n'
    {
      NoNewlineBefore(file, tmp, start, pos, i);
    }
  }

  lemma NoNewlineBefore(file: string, tmp: string, start: nat, pos: nat, i: nat)
    requires start <= i < start + pos && start <= |file| && tmp == file[start..] && pos <= |tmp| && '\n' !in tmp[..pos]
    ensures file[i] != '\n'
  {
    assert tmp[..pos][i - start] == file[i];
  }

  /** A file within 1.2 times the limit stays as it is, and a longer one gets shorter. */
  lemma CheckedIffTooLong(file: string, max: int)
    requires Text(file) && file != []
    ensures 10 * |file| <= 12 * max ==> CheckedSize(file, max) == Some(file)
    ensures 10 * |file| > 12 * max ==>
              CheckedSize(file, max) == Shrunk(file) && Shrunk(file).Some? && |Shrunk(file).value| < |file|
  {
    ShrinkKeepsTheMost(file);
    assert TooLong(|file|, max) <==> 10 * |file| > 12 * max;
  }

  /** On a text checkSize succeeds but for the one case below, and leaves at most max(1.2*max, 2046) bytes. */
  lemma CheckedText(file: string, all: string, max: int)
    requires Text(file) && LineSuffix(file, all) && (max >= 0 || file != [])
    ensures var r := CheckedSize(file, max);
            && r.Some? && Text(r.value) && LineSuffix(r.value, all)
            && (|r.value| as real <= 1.2 * max as real || |r.value| <= 2046)
  {
    if TooLong(|file|, max) {
      ShrunkText(file, all);
    }
  }

  /** checkSize steps off a null pointer exactly on an empty file under a negative limit. */
  lemma CheckSizeFailsIff(file: string, max: int)
    requires Text(file)
    ensures CheckedSize(file, max).None? <==> file == [] && max < 0
  {
    if file != [] {
      ShrunkText(file, file);
    } else {
      assert Tail(file) == [];
    }
  }

  lemma AppendedText(file: string, all: string, line: string)
    requires Text(file) && LineSuffix(file, all) && Text(line)
    ensures Text(file + line) && LineSuffix(file + line, all + line)
  {
    if line != [] {
      assert (file + line)[|file + line| - 1] == line[|line| - 1];
    }
  }

  // ---- The object ----

  class Store {
    var file: string
    var m_filesize: int
    var max_filesize: int
    ghost var appended: string

    ghost predicate Valid()
      reads this
    {
      Text(file) && LineSuffix(file, appended)
    }

    constructor ()
      ensures Valid() && file == [] && appended == [] && max_filesize == 204800000
    {
      file, appended := [], [];
      m_filesize, max_filesize := -1, 204800000;
    }

    method SetMaxFileSize(maxsize: int)
      requires Valid()
      modifies this`max_filesize
      ensures Valid() && max_filesize == maxsize
    {
      max_filesize := maxsize;
    }

    /** ofs << ... << std::endl on a stream opened for appending. */
    method Append(line: string)
      requires Valid() && Text(line)
      modifies this`file, this`appended
      ensures Valid() && file == old(file) + line && appended == old(appended) + line
    {
      AppendedText(file, appended, line);
      file, appended := file + line, appended + line;
    }

    /** The size test is the caller's; a newline has to be there for strchr to find. */
    method ShrinkLogFile()
      requires Shrunk(file).Some?
      modifies this`file
      ensures Some(file) == Shrunk(old(file))
    {
      var tmp := CString(Tail(file));
      var pos := FindNewline(tmp);
      file := tmp[pos.value + 1..];
    }

    /** The size is recorded before any shrink. It fails exactly in the case excluded: see CheckSizeFailsIff. */
    method CheckSize()
      requires Valid() && (max_filesize >= 0 || file != [])
      modifies this`file, this`m_filesize
      ensures Valid() && m_filesize == old(|file|)
      ensures Some(file) == CheckedSize(old(file), max_filesize)
      ensures |file| as real <= 1.2 * max_filesize as real || |file| <= 2046
    {
      CheckedText(file, appended, max_filesize);
      m_filesize := |file|;
      if m_filesize as real > 1.2 * max_filesize as real {
        ShrinkLogFile();
      }
    }
  }
}
