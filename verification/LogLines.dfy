/** A text split at its newlines. */
module LogLines {
  import opened Sequences
  import opened Options
  import opened LogFile

  function Lines(s: string): seq<string>
    decreases |s|
  {
    var p := FindNewline(s);
    if p.None? then (if s == [] then [] else [s]) else [s[..p.value]] + Lines(s[p.value + 1..])
  }

  predicate OneLine(s: string) { '\n' !in s }

  lemma {:induction false} NewlineAt(s: string, p: nat)
    requires p < |s| && s[p] == '\n' && '\n' !in s[..p]
    ensures FindNewline(s) == Some(p)
  {
    if p > 0 {
      assert s[0] in s[..p];
      assert forall c :: c in s[1..][..p - 1] ==> c in s[..p];
      NewlineAt(s[1..], p - 1);
    }
  }

  lemma FirstNewline(a: string, b: string)
    requires '\n' in a
    ensures FindNewline(a + b) == FindNewline(a)
  {
    var p := FindNewline(a).value;
    assert (a + b)[..p] == a[..p];
    NewlineAt(a + b, p);
  }

  lemma DropOne(a: string, b: string, n: nat)
    requires n <= |a|
    ensures (a + b)[n..] == a[n..] + b && (n > 0 ==> (a + b)[..n - 1] == a[..n - 1])
  {
  }

  /** A text ends its last line, so that what follows starts a new one. */
  lemma {:induction false} LinesConcat(a: string, b: string)
    requires Text(a)
    ensures Lines(a + b) == Lines(a) + Lines(b)
    decreases |a|
  {
    if a == [] {
      Empty(b);
      Empty(Lines(b));
    } else {
      assert a[|a| - 1] == '\n';
      FirstNewline(a, b);
      var p := FindNewline(a).value;
      DropOne(a, b, p + 1);
      RestIsText(a, p + 1);
      LinesConcat(a[p + 1..], b);
      Assoc([a[..p]], Lines(a[p + 1..]), Lines(b));
    }
  }

  lemma RestIsText(a: string, n: nat)
    requires Text(a) && n <= |a|
    ensures Text(a[n..])
  {
    if n < |a| {
      assert a[n..][|a| - n - 1] == a[|a| - 1];
    }
  }

  lemma LinesOfLine(s: string)
    requires OneLine(s)
    ensures Lines(s + "\n") == [s]
  {
    var t := s + "\n";
    assert t[..|s|] == s;
    NewlineAt(t, |s|);
    assert t[..|s|] == s && t[|s| + 1..] == [];
    Empty([s]);
  }

  lemma LinesOfSuffix(file: string, all: string) returns (dropped: nat)
    requires Text(all) && Text(file) && LineSuffix(file, all)
    ensures dropped <= |Lines(all)| && Lines(file) == Lines(all)[dropped..]
    ensures file == all ==> dropped == 0
  {
    var a := all[..|all| - |file|];
    assert all == a + file;
    assert Text(a);
    LinesConcat(a, file);
    dropped := |Lines(a)|;
    SplitConcat(Lines(a), Lines(file));
    if file == all {
      assert a == [];
    }
  }
}
