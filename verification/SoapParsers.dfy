/**
 soap_in_ and soap_out_ of ns1__deleteBatchFile and ns1__deleteFiles. Line numbers are those of
 ConsoleTest/testWS/soapC.cpp; for a RepeatedField, those of arg0 of deleteBatchFile.
 */
module SoapParsers {
  import opened Sequences
  import opened Options
  import opened SoapRuntime

  // ---- A repeated element: __sizeargN, argN and the block list ----

  function Strings(blocks: seq<Option<string>>): (v: seq<string>)
    requires forall i :: 0 <= i < |blocks| ==> blocks[i].Some?
    ensures |v| == |blocks|
    ensures forall i :: 0 <= i < |v| ==> blocks[i] == Some(v[i])
  {
    seq(|blocks|, i requires 0 <= i < |blocks| => blocks[i].value)
  }

  /** Blocks pushed so far; argN points to the last one while a slot is pending, and is null otherwise. */
  class RepeatedField {
    var size: nat
    var blocks: Option<seq<Option<string>>>
    var pending: bool
    /** argN as an array, once parsed. */
    var saved: Option<seq<Option<string>>>

    /** The loop invariant: one block for each value read, and one more if a slot is pending. */
    predicate Valid()
      reads this
    {
      match blocks
      case None => size == 0 && !pending
      case Some(b) =>
        && |b| == size + (if pending then 1 else 0)
        && forall i :: 0 <= i < size ==> b[i].Some?
    }

    function Values(): (v: seq<string>)
      requires Valid()
      reads this
      ensures |v| == size
    {
      if blocks.None? then [] else Strings(blocks.value[..size])
    }

    predicate IsNew()
      reads this
    {
      size == 0 && blocks == None && !pending && saved == None
    }

    /** What the printer shows: nothing while argN is null. */
    predicate Printable()
      reads this
    {
      saved.Some? ==> size <= |saved.value| && forall i :: 0 <= i < size ==> saved.value[i].Some?
    }

    function Array(): seq<string>
      requires Printable()
      reads this
    {
      if saved.None? then [] else Strings(saved.value[..size])
    }

    constructor ()
      ensures IsNew()
    {
      size, blocks, pending, saved := 0, None, false, None;
    }

    /** Lines 2755 to 2762: open a slot unless one is pending. */
    method PushSlot()
      requires Valid()
      modifies this
      ensures Valid() && pending && Values() == old(Values())
    {
      if !pending {
        if blocks == None {
          blocks := Some([]);
        }
        assert blocks.value[..size] == (blocks.value + [None])[..size];
        blocks := Some(blocks.value + [None]);
        pending := true;
      }
    }

    /** Lines 2765 and 2766: the pending slot has been filled. */
    method Fill(s: string)
      requires Valid() && pending
      modifies this
      ensures Valid() && !pending && Values() == old(Values()) + [s]
    {
      blocks := Some(blocks.value[size := Some(s)]);
      size := size + 1;
      pending := false;
    }

    /** Lines 2754 to 2769: took means that the loop continues with the next child. */
    method TryRead(soap: Reader, tag: string) returns (took: bool)
      requires Valid() && soap.error == TagMismatch
      modifies this, soap
      ensures Valid()
      ensures var here := old(!soap.AtEnd()) && soap.children[old(soap.pos)].tag == tag;
              && (took <==> here && soap.children[old(soap.pos)].body.Text?)
              && (took ==> soap.pos == old(soap.pos) + 1 && soap.error == Ok)
              && (took ==> Values() == old(Values()) + [soap.children[old(soap.pos)].body.s])
              && (!took ==> Values() == old(Values()) && soap.pos == old(soap.pos))
              && (!took ==>
                    soap.error == (if soap.AtEnd() then NoTag
                                   else if here && soap.children[soap.pos].body.Broken?
                                   then Fault(soap.children[soap.pos].body.code)
                                   else TagMismatch))
    {
      took := soap.BeginIn(tag);
      if took {
        PushSlot();
        var s := soap.InString(tag);
        took := s.Some?;
        if took {
          Fill(s.value);
        }
      }
    }

    /** Lines 2793 to 2802: drop a pending slot, then keep the blocks as an array or as nothing. */
    method Finish()
      requires Valid()
      modifies this
      ensures Printable() && Array() == old(Values()) && size == old(size)
      ensures saved.Some? <==> size > 0
      ensures saved.Some? ==> |saved.value| == size
    {
      if pending {
        assert blocks.value[..size] == blocks.value[..|blocks.value| - 1][..size];
        blocks := Some(blocks.value[..|blocks.value| - 1]);
        pending := false;
      }
      if size > 0 {
        saved := blocks;
      } else {
        saved := None;
      }
    }

    /** Lines 2716 to 2720. */
    method Print(soap: Writer, tag: string)
      requires Printable()
      modifies soap
      ensures soap.children == old(soap.children) + Elements(tag, Array())
    {
      Empty(soap.children);
      if saved.Some? {
        var i := 0;
        while i < size
          invariant i <= size
          invariant soap.children == old(soap.children) + Elements(tag, Array()[..i])
        {
          soap.OutString(tag, saved.value[i].value);
          ElementsSnoc(tag, Array()[..i], Array()[i]);
          assert Array()[..i + 1] == Array()[..i] + [Array()[i]];
          i := i + 1;
        }
        assert Array()[..size] == Array();
      }
    }
  }

  function Elements(tag: string, values: seq<string>): (children: seq<Child>)
    ensures |children| == |values|
  {
    seq(|values|, i requires 0 <= i < |values| => Child(tag, Text(values[i]), false, false))
  }

  lemma ElementsSnoc(tag: string, values: seq<string>, s: string)
    ensures Elements(tag, values + [s]) == Elements(tag, values) + [Child(tag, Text(s), false, false)]
  {
  }

  // ---- What a parse should give, over the whole child sequence ----

  function Read(c: Child, tag: string): seq<string> {
    if c.tag == tag && c.body.Text? then [c.body.s] else []
  }

  /** The string values of the children with a tag, in document order. */
  function Values(children: seq<Child>, tag: string): seq<string> {
    if children == [] then []
    else Values(children[..|children| - 1], tag) + Read(children[|children| - 1], tag)
  }

  /** once: the tags of scalar fields, which are read only until a first value has been found. */
  datatype Schema = Schema(repeated: set<string>, once: set<string>)

  predicate Reads(schema: Schema, before: seq<Child>, tag: string) {
    tag in schema.repeated || (tag in schema.once && |Values(before, tag)| == 0)
  }

  /** What one child does to the parse: Ok if it is read or skipped. */
  function ChildError(schema: Schema, strict: bool, before: seq<Child>, c: Child): Error {
    if Reads(schema, before, c.tag) && c.body.Text? then Ok
    else if Reads(schema, before, c.tag) && c.body.Broken? then Fault(c.body.code)
    else Ignored(c, strict)
  }

  /** The error of the first child that stops the parse, or Ok. */
  function FirstError(schema: Schema, strict: bool, children: seq<Child>): Error {
    if children == [] then Ok
    else
      var before, c := children[..|children| - 1], children[|children| - 1];
      var e := FirstError(schema, strict, before);
      if e != Ok then e else ChildError(schema, strict, before, c)
  }

  lemma Snoc(schema: Schema, strict: bool, children: seq<Child>, i: nat, tag: string)
    requires i < |children|
    ensures Values(children[..i + 1], tag) == Values(children[..i], tag) + Read(children[i], tag)
    ensures FirstError(schema, strict, children[..i + 1]) ==
            (if FirstError(schema, strict, children[..i]) != Ok then FirstError(schema, strict, children[..i])
             else ChildError(schema, strict, children[..i], children[i]))
  {
    assert children[..i + 1][..i] == children[..i];
  }

  lemma {:induction false} ErrorStands(schema: Schema, strict: bool, children: seq<Child>, i: nat)
    requires i <= |children| && FirstError(schema, strict, children[..i]) != Ok
    ensures FirstError(schema, strict, children) == FirstError(schema, strict, children[..i])
    decreases |children| - i
  {
    if i == |children| {
      Whole(children);
    } else {
      Snoc(schema, strict, children, i, "");
      ErrorStands(schema, strict, children, i + 1);
    }
  }

  lemma Whole<T>(s: seq<T>)
    ensures s[..|s|] == s
  {
  }

  /** The first i children are done: none stopped the parse, and v0 and v1 are what they hold. */
  predicate Progress(schema: Schema, strict: bool, children: seq<Child>, i: nat, v0: seq<string>, v1: seq<string>) {
    && i <= |children|
    && v0 == Values(children[..i], "arg0")
    && v1 == Values(children[..i], "arg1")
    && FirstError(schema, strict, children[..i]) == Ok
  }

  lemma ProgressStep(schema: Schema, strict: bool, children: seq<Child>, i: nat, v0: seq<string>, v1: seq<string>)
    requires i < |children| && Progress(schema, strict, children, i, v0, v1)
    ensures var e := ChildError(schema, strict, children[..i], children[i]);
            if e != Ok then FirstError(schema, strict, children) == e
            else Progress(schema, strict, children, i + 1, v0 + Read(children[i], "arg0"), v1 + Read(children[i], "arg1"))
  {
    Snoc(schema, strict, children, i, "arg0");
    Snoc(schema, strict, children, i, "arg1");
    if ChildError(schema, strict, children[..i], children[i]) != Ok {
      ErrorStands(schema, strict, children, i + 1);
    }
  }

  // ---- deleteBatchFile ----

  const BATCH := Schema({"arg0", "arg1"}, {})

  class DeleteBatchFile {
    const arg0: RepeatedField
    const arg1: RepeatedField

    constructor ()
      ensures fresh(arg0) && fresh(arg1) && arg0 != arg1 && arg0.IsNew() && arg1.IsNew()
    {
      arg0 := new RepeatedField();
      arg1 := new RepeatedField();
    }

    /** One iteration of the loop, lines 2753 to 2787. */
    method Iteration(soap: Reader)
      requires arg0 != arg1 && arg0.Valid() && arg1.Valid()
      modifies soap, arg0, arg1
      ensures arg0.Valid() && arg1.Valid()
      ensures old(soap.AtEnd()) ==>
                soap.error == NoTag && soap.pos == old(soap.pos)
                && arg0.Values() == old(arg0.Values()) && arg1.Values() == old(arg1.Values())
      ensures !old(soap.AtEnd()) ==>
                var c := soap.children[old(soap.pos)];
                && soap.error == ChildError(BATCH, soap.strict, soap.children[..old(soap.pos)], c)
                && (soap.error == Ok ==>
                      && soap.pos == old(soap.pos) + 1
                      && arg0.Values() == old(arg0.Values()) + Read(c, "arg0")
                      && arg1.Values() == old(arg1.Values()) + Read(c, "arg1"))
    {
      soap.error := TagMismatch;
      var took := arg0.TryRead(soap, "arg0");
      if took {
        return;
      }
      if soap.error == TagMismatch {
        took := arg1.TryRead(soap, "arg1");
        if took {
          return;
        }
      }
      if soap.error == TagMismatch {
        soap.IgnoreElement();
      }
    }

    /** One iteration, as seen by the loop. */
    method ReadChild(soap: Reader)
      requires arg0 != arg1 && arg0.Valid() && arg1.Valid()
      requires Progress(BATCH, soap.strict, soap.children, soap.pos, arg0.Values(), arg1.Values())
      modifies soap, arg0, arg1
      ensures arg0.Valid() && arg1.Valid()
      ensures soap.error == NoTag || soap.error == Ok ==>
                Progress(BATCH, soap.strict, soap.children, soap.pos, arg0.Values(), arg1.Values())
      ensures soap.error == NoTag <==> old(soap.AtEnd())
      ensures soap.error == NoTag ==> soap.pos == |soap.children|
      ensures soap.error == Ok ==> soap.pos == old(soap.pos) + 1
      ensures soap.error != NoTag && soap.error != Ok ==> soap.error == FirstError(BATCH, soap.strict, soap.children)
    {
      if !soap.AtEnd() {
        ProgressStep(BATCH, soap.strict, soap.children, soap.pos, arg0.Values(), arg1.Values());
      }
      Iteration(soap);
    }

    /** The loop, lines 2752 to 2792. */
    method ReadChildren(soap: Reader) returns (ok: bool)
      requires arg0 != arg1 && arg0.IsNew() && arg1.IsNew()
      requires soap.pos == 0
      modifies soap, arg0, arg1
      ensures arg0.Valid() && arg1.Valid()
      ensures ok ==> Progress(BATCH, soap.strict, soap.children, |soap.children|, arg0.Values(), arg1.Values())
      ensures !ok ==> soap.error != Ok && soap.error == FirstError(BATCH, soap.strict, soap.children)
    {
      while true
        invariant arg0.Valid() && arg1.Valid()
        invariant Progress(BATCH, soap.strict, soap.children, soap.pos, arg0.Values(), arg1.Values())
        decreases |soap.children| - soap.pos
      {
        ReadChild(soap);
        if soap.error == NoTag {
          return true;
        }
        if soap.error != Ok {
          return false;
        }
      }
    }

    /**
     The parse fails with the error of the first child that is neither read nor skipped. Without one, each
     array holds the values of its tag in document order, however the children are interleaved.
     */
    method SoapIn(soap: Reader) returns (ok: bool)
      requires arg0 != arg1 && arg0.IsNew() && arg1.IsNew()
      requires soap.pos == 0
      modifies soap, arg0, arg1
      ensures ok <==> FirstError(BATCH, soap.strict, soap.children) == Ok
      ensures !ok ==> soap.error == FirstError(BATCH, soap.strict, soap.children)
      ensures ok ==> arg0.Printable() && arg0.Array() == Values(soap.children, "arg0") && arg0.size == |arg0.Array()|
      ensures ok ==> arg1.Printable() && arg1.Array() == Values(soap.children, "arg1") && arg1.size == |arg1.Array()|
    {
      ok := ReadChildren(soap);
      if ok {
        Whole(soap.children);
        arg0.Finish();
        arg1.Finish();
      }
    }

    method SoapOut(soap: Writer)
      requires arg0.Printable() && arg1.Printable()
      modifies soap
      ensures soap.children == old(soap.children) + (Elements("arg0", arg0.Array()) + Elements("arg1", arg1.Array()))
    {
      arg0.Print(soap, "arg0");
      arg1.Print(soap, "arg1");
    }
  }

  // ---- deleteFiles ----

  const FILES := Schema({"arg1"}, {"arg0"})

  class DeleteFiles {
    var arg0: Option<string>
    var flag: bool
    const arg1: RepeatedField

    /** The flag is up until a first arg0 has been read, and then arg0 keeps that value. */
    predicate Scalar(values: seq<string>)
      reads this
    {
      (flag <==> |values| == 0) && arg0 == if |values| == 0 then None else Some(values[0])
    }

    constructor ()
      ensures fresh(arg1) && Scalar([]) && arg1.IsNew()
    {
      arg0, flag := None, true;
      arg1 := new RepeatedField();
    }

    /** Lines 3560 to 3565, with the error TagMismatch on entry. */
    method TryScalar(soap: Reader) returns (took: bool)
      requires soap.error == TagMismatch
      modifies this, soap
      ensures var here := flag && old(!soap.AtEnd()) && soap.children[old(soap.pos)].tag == "arg0";
              && (took <==> old(flag) && old(!soap.AtEnd()) && soap.children[old(soap.pos)].tag == "arg0"
                            && soap.children[old(soap.pos)].body.Text?)
              && (took ==> soap.pos == old(soap.pos) + 1 && soap.error == Ok)
              && (took ==> !flag && arg0 == Some(soap.children[old(soap.pos)].body.s))
              && (!took ==> flag == old(flag) && arg0 == old(arg0) && soap.pos == old(soap.pos))
              && (!took ==>
                    soap.error == (if flag && soap.AtEnd() then NoTag
                                   else if here && soap.children[soap.pos].body.Broken?
                                   then Fault(soap.children[soap.pos].body.code)
                                   else TagMismatch))
    {
      took := false;
      if flag {
        var s := soap.InString("arg0");
        if s.Some? {
          arg0 := s;
          flag := false;
          took := true;
        }
      }
    }

    /** One iteration of the loop, lines 3559 to 3583. */
    method Iteration(soap: Reader, ghost values: seq<string>)
      requires arg1.Valid() && Scalar(values)
      requires soap.pos <= |soap.children| && values == Values(soap.children[..soap.pos], "arg0")
      modifies soap, this, arg1
      ensures arg1.Valid()
      ensures old(soap.AtEnd()) ==>
                soap.error == NoTag && soap.pos == old(soap.pos)
                && Scalar(values) && arg1.Values() == old(arg1.Values())
      ensures !old(soap.AtEnd()) ==>
                var c := soap.children[old(soap.pos)];
                && soap.error == ChildError(FILES, soap.strict, soap.children[..old(soap.pos)], c)
                && (soap.error == Ok ==>
                      && soap.pos == old(soap.pos) + 1
                      && Scalar(values + Read(c, "arg0"))
                      && arg1.Values() == old(arg1.Values()) + Read(c, "arg1"))
    {
      soap.error := TagMismatch;
      var took := TryScalar(soap);
      if took {
        return;
      }
      if soap.error == TagMismatch {
        took := arg1.TryRead(soap, "arg1");
        if took {
          return;
        }
      }
      if soap.error == TagMismatch {
        soap.IgnoreElement();
      }
    }

    /** One iteration, as seen by the loop. */
    method ReadChild(soap: Reader, ghost v: seq<string>) returns (ghost v0: seq<string>)
      requires arg1.Valid() && Scalar(v)
      requires Progress(FILES, soap.strict, soap.children, soap.pos, v, arg1.Values())
      modifies soap, this, arg1
      ensures arg1.Valid()
      ensures soap.error == NoTag || soap.error == Ok ==>
                Scalar(v0) && Progress(FILES, soap.strict, soap.children, soap.pos, v0, arg1.Values())
      ensures soap.error == NoTag <==> old(soap.AtEnd())
      ensures soap.error == NoTag ==> soap.pos == |soap.children|
      ensures soap.error == Ok ==> soap.pos == old(soap.pos) + 1
      ensures soap.error != NoTag && soap.error != Ok ==> soap.error == FirstError(FILES, soap.strict, soap.children)
    {
      v0 := v;
      ghost var i, v1 := soap.pos, arg1.Values();
      if soap.AtEnd() {
        Iteration(soap, v);
      } else {
        v0 := v + Read(soap.children[i], "arg0");
        Iteration(soap, v);
        ProgressStep(FILES, soap.strict, soap.children, i, v, v1);
      }
    }

    /** The loop, lines 3558 to 3588. */
    method ReadChildren(soap: Reader) returns (ok: bool, ghost v0: seq<string>)
      requires Scalar([]) && arg1.IsNew()
      requires soap.pos == 0
      modifies soap, this, arg1
      ensures arg1.Valid()
      ensures ok ==> Scalar(v0) && Progress(FILES, soap.strict, soap.children, |soap.children|, v0, arg1.Values())
      ensures !ok ==> soap.error != Ok && soap.error == FirstError(FILES, soap.strict, soap.children)
    {
      v0 := [];
      while true
        invariant arg1.Valid() && Scalar(v0)
        invariant Progress(FILES, soap.strict, soap.children, soap.pos, v0, arg1.Values())
        decreases |soap.children| - soap.pos
      {
        v0 := ReadChild(soap, v0);
        if soap.error == NoTag {
          return true, v0;
        }
        if soap.error != Ok {
          return false, v0;
        }
      }
    }

    /** The first arg0 that reads as a string is kept; a later one counts as an unknown child. */
    method SoapIn(soap: Reader) returns (ok: bool)
      requires Scalar([]) && arg1.IsNew()
      requires soap.pos == 0
      modifies soap, this, arg1
      ensures ok <==> FirstError(FILES, soap.strict, soap.children) == Ok
      ensures !ok ==> soap.error == FirstError(FILES, soap.strict, soap.children)
      ensures ok ==> Scalar(Values(soap.children, "arg0"))
      ensures ok ==> arg1.Printable() && arg1.Array() == Values(soap.children, "arg1") && arg1.size == |arg1.Array()|
    {
      ghost var v0;
      ok, v0 := ReadChildren(soap);
      if ok {
        Whole(soap.children);
        arg1.Finish();
      }
    }

    method SoapOut(soap: Writer)
      requires arg0.Some? && arg1.Printable()
      modifies soap
      ensures soap.children == old(soap.children) + (Elements("arg0", [arg0.value]) + Elements("arg1", arg1.Array()))
    {
      soap.OutString("arg0", arg0.value);
      arg1.Print(soap, "arg1");
    }
  }

  // ---- Interleaving, unknown children and round trips ----

  lemma {:induction false} ValuesConcat(a: seq<Child>, b: seq<Child>, tag: string)
    ensures Values(a + b, tag) == Values(a, tag) + Values(b, tag)
    decreases |b|
  {
    if b == [] {
      Empty(a);
    } else {
      var front, c := b[..|b| - 1], b[|b| - 1];
      ValuesConcat(a, front, tag);
      ConcatSnoc(a, b);
      Assoc(Values(a, tag), Values(front, tag), Read(c, tag));
    }
  }

  lemma ConcatSnoc<T>(a: seq<T>, b: seq<T>)
    requires b != []
    ensures (a + b)[..|a + b| - 1] == a + b[..|b| - 1] && (a + b)[|a + b| - 1] == b[|b| - 1]
  {
  }

  /** No field of deleteBatchFile is read only once, so a parse succeeds exactly if no single child stops it. */
  lemma {:induction false} BatchSucceedsIff(strict: bool, children: seq<Child>)
    ensures FirstError(BATCH, strict, children) == Ok <==>
            forall c :: c in children ==> ChildError(BATCH, strict, [], c) == Ok
  {
    if children != [] {
      var before, c := children[..|children| - 1], children[|children| - 1];
      BatchSucceedsIff(strict, before);
      assert ChildError(BATCH, strict, before, c) == ChildError(BATCH, strict, [], c);
      assert forall d :: d in children <==> d in before || d == c;
    }
  }

  predicate IsArg(c: Child) { c.tag == "arg0" || c.tag == "arg1" }

  /** In strict mode exactly the sequences of readable arg0 and arg1 children are parsed. */
  lemma StrictSucceedsIff(children: seq<Child>)
    ensures FirstError(BATCH, true, children) == Ok <==> forall c :: c in children ==> IsArg(c) && c.body.Text?
  {
    BatchSucceedsIff(true, children);
    assert forall c :: ChildError(BATCH, true, [], c) == Ok <==> IsArg(c) && c.body.Text?;
  }

  /** In lax mode anything goes but a broken argument, and an unread child that is mandatory or reserved. */
  lemma LaxSucceedsIff(children: seq<Child>)
    ensures FirstError(BATCH, false, children) == Ok <==>
            forall c :: c in children ==>
              if IsArg(c) && !c.body.Mismatch? then c.body.Text? else !c.mustUnderstand && !c.reserved
  {
    BatchSucceedsIff(false, children);
    assert forall c :: ChildError(BATCH, false, [], c) == Ok <==>
        if IsArg(c) && !c.body.Mismatch? then c.body.Text? else !c.mustUnderstand && !c.reserved;
  }

  /** The error reported is that of the first child that stops the parse: which one it is, and what it says. */
  lemma {:induction false} FirstErrorSays(strict: bool, before: seq<Child>, c: Child, after: seq<Child>)
    requires FirstError(BATCH, strict, before) == Ok && FirstError(BATCH, strict, before + [c]) != Ok
    ensures FirstError(BATCH, strict, before + [c] + after) ==
            if IsArg(c) && c.body.Broken? then Fault(c.body.code)
            else if c.mustUnderstand then MustUnderstand
            else TagMismatch
  {
    var all := before + [c] + after;
    SplitConcat(before + [c], after);
    SplitConcat(before, [c]);
    ErrorStands(BATCH, strict, all, |before| + 1);
    assert all[..|before| + 1] == before + [c];
    assert FirstError(BATCH, strict, before + [c]) == ChildError(BATCH, strict, before, c);
  }

  predicate SameParse(strict: bool, a: seq<Child>, b: seq<Child>, tag: string) {
    && (FirstError(BATCH, strict, a) == Ok <==> FirstError(BATCH, strict, b) == Ok)
    && Values(a, tag) == Values(b, tag)
  }

  /** Swapping two neighbours of which no tag reads both changes no array, nor whether the parse succeeds. */
  lemma {:induction false} InterleavingDoesNotMatter(strict: bool, a: seq<Child>, c: Child, d: Child, b: seq<Child>, tag: string)
    requires c.tag != d.tag || !c.body.Text?
    ensures SameParse(strict, a + [c, d] + b, a + [d, c] + b, tag)
  {
    SwappedValues(a, c, d, b, tag);
    BatchSucceedsIff(strict, a + [c, d] + b);
    BatchSucceedsIff(strict, a + [d, c] + b);
    SwappedMembers(a, c, d, b);
  }

  lemma SwappedMembers(a: seq<Child>, c: Child, d: Child, b: seq<Child>)
    ensures forall x :: x in a + [c, d] + b <==> x in a + [d, c] + b
  {
  }

  lemma SwappedValues(a: seq<Child>, c: Child, d: Child, b: seq<Child>, tag: string)
    requires c.tag != d.tag || !c.body.Text?
    ensures Values(a + [c, d] + b, tag) == Values(a + [d, c] + b, tag)
  {
    ValuesMiddle(a, [c, d], b, tag);
    ValuesMiddle(a, [d, c], b, tag);
    ValuesOfTwo(c, d, tag);
    ValuesOfTwo(d, c, tag);
    Empty(Read(c, tag));
    Empty(Read(d, tag));
  }

  /** A child that is skipped leaves no trace: neither in an array, nor in whether the parse succeeds. */
  lemma {:induction false} UnknownChildrenDoNotMatter(strict: bool, a: seq<Child>, c: Child, b: seq<Child>, tag: string)
    requires ChildError(BATCH, strict, [], c) == Ok && (c.tag != tag || !c.body.Text?)
    ensures SameParse(strict, a + [c] + b, a + b, tag)
  {
    SkippedValues(a, c, b, tag);
    BatchSucceedsIff(strict, a + [c] + b);
    BatchSucceedsIff(strict, a + b);
    SkippedMembers(a, c, b);
  }

  lemma SkippedMembers(a: seq<Child>, c: Child, b: seq<Child>)
    ensures forall x :: x in a + [c] + b <==> x in a + b || x == c
  {
  }

  lemma SkippedValues(a: seq<Child>, c: Child, b: seq<Child>, tag: string)
    requires c.tag != tag || !c.body.Text?
    ensures Values(a + [c] + b, tag) == Values(a + b, tag)
  {
    ValuesMiddle(a, [c], b, tag);
    ValuesConcat(a, b, tag);
    ValuesOfTwo(c, c, tag);
    Empty(Values(a, tag));
  }

  lemma ValuesMiddle(a: seq<Child>, m: seq<Child>, b: seq<Child>, tag: string)
    ensures Values(a + m + b, tag) == Values(a, tag) + Values(m, tag) + Values(b, tag)
  {
    ValuesConcat(a + m, b, tag);
    ValuesConcat(a, m, tag);
  }

  lemma ValuesOfTwo(c: Child, d: Child, tag: string)
    ensures Values([c, d], tag) == Read(c, tag) + Read(d, tag)
    ensures Values([c], tag) == Read(c, tag)
  {
    assert [c, d][..1] == [c] && [c][..0] == [];
    Empty(Read(c, tag));
    assert Values([c][..0], tag) == [];
    assert Values([c], tag) == Values([c][..0], tag) + Read([c][0], tag);
    assert Values([c, d], tag) == Values([c, d][..1], tag) + Read([c, d][1], tag);
  }

  /** In lax mode, without reserved or mustUnderstand children and broken values, every parse succeeds. */
  lemma {:induction false} LaxParseSucceeds(schema: Schema, children: seq<Child>)
    requires forall c :: c in children ==> !c.mustUnderstand && !c.reserved && !c.body.Broken?
    ensures FirstError(schema, false, children) == Ok
  {
    if children != [] {
      LaxParseSucceeds(schema, children[..|children| - 1]);
    }
  }

  lemma {:induction false} PrintedValues(tag: string, values: seq<string>, other: string)
    ensures Values(Elements(tag, values), other) == if other == tag then values else []
  {
    if values != [] {
      var n := |values| - 1;
      PrintedValues(tag, values[..n], other);
      ElementsFront(tag, values);
      assert values == values[..n] + [values[n]];
    }
  }

  /** Elements that the schema reads are accepted in either mode. */
  lemma {:induction false} PrintedAccepted(schema: Schema, strict: bool, before: seq<Child>, tag: string, values: seq<string>)
    requires tag in schema.repeated && FirstError(schema, strict, before) == Ok
    ensures FirstError(schema, strict, before + Elements(tag, values)) == Ok
  {
    if values == [] {
      Empty(before);
    } else {
      var n := |values| - 1;
      PrintedAccepted(schema, strict, before, tag, values[..n]);
      ElementsFront(tag, values);
      ConcatSnoc(before, Elements(tag, values));
      LastAccepted(schema, strict, before + Elements(tag, values), tag);
    }
  }

  lemma LastAccepted(schema: Schema, strict: bool, children: seq<Child>, tag: string)
    requires tag in schema.repeated && children != []
    requires FirstError(schema, strict, children[..|children| - 1]) == Ok
    requires children[|children| - 1].tag == tag && children[|children| - 1].body.Text?
    ensures FirstError(schema, strict, children) == Ok
  {
  }

  lemma ElementsFront(tag: string, values: seq<string>)
    requires values != []
    ensures var n := |values| - 1;
            && Elements(tag, values)[..n] == Elements(tag, values[..n])
            && Elements(tag, values)[n] == Child(tag, Text(values[n]), false, false)
  {
  }

  /** Parsing the printed form of any two lists gives them back, in strict mode too. */
  lemma {:induction false} BatchRoundTrip(strict: bool, v0: seq<string>, v1: seq<string>)
    ensures var printed := Elements("arg0", v0) + Elements("arg1", v1);
            && FirstError(BATCH, strict, printed) == Ok
            && Values(printed, "arg0") == v0
            && Values(printed, "arg1") == v1
  {
    Empty(Elements("arg0", v0));
    PrintedAccepted(BATCH, strict, [], "arg0", v0);
    PrintedAccepted(BATCH, strict, Elements("arg0", v0), "arg1", v1);
    TwoLists(v0, v1);
  }

  lemma TwoLists(v0: seq<string>, v1: seq<string>)
    ensures var printed := Elements("arg0", v0) + Elements("arg1", v1);
            Values(printed, "arg0") == v0 && Values(printed, "arg1") == v1
  {
    ValuesConcat(Elements("arg0", v0), Elements("arg1", v1), "arg0");
    ValuesConcat(Elements("arg0", v0), Elements("arg1", v1), "arg1");
    PrintedValues("arg0", v0, "arg0");
    PrintedValues("arg0", v0, "arg1");
    PrintedValues("arg1", v1, "arg0");
    PrintedValues("arg1", v1, "arg1");
    Empty(v0);
    Empty(v1);
  }

  lemma {:induction false} FilesRoundTrip(strict: bool, s: string, v1: seq<string>)
    ensures var printed := Elements("arg0", [s]) + Elements("arg1", v1);
            && FirstError(FILES, strict, printed) == Ok
            && Values(printed, "arg0") == [s]
            && Values(printed, "arg1") == v1
  {
    assert FirstError(FILES, strict, Elements("arg0", [s])) == Ok;
    PrintedAccepted(FILES, strict, Elements("arg0", [s]), "arg1", v1);
    TwoLists([s], v1);
  }

  // ---- The round trips on the code itself ----

  method PrintedBatch(a: DeleteBatchFile) returns (children: seq<Child>)
    requires a.arg0.Printable() && a.arg1.Printable()
    ensures children == Elements("arg0", a.arg0.Array()) + Elements("arg1", a.arg1.Array())
  {
    var soap := new Writer();
    a.SoapOut(soap);
    children := soap.children;
    Empty(children);
  }

  method ParsedBatch(children: seq<Child>, strict: bool) returns (b: DeleteBatchFile, ok: bool)
    ensures ok <==> FirstError(BATCH, strict, children) == Ok
    ensures ok ==> b.arg0.Printable() && b.arg0.Array() == Values(children, "arg0")
    ensures ok ==> b.arg1.Printable() && b.arg1.Array() == Values(children, "arg1")
  {
    var soap := new Reader(children, strict);
    b := new DeleteBatchFile();
    ok := b.SoapIn(soap);
  }

  /** Printing and parsing again gives a new object with the same arrays. */
  method PrintAndParseBatch(a: DeleteBatchFile, strict: bool) returns (b: DeleteBatchFile, ok: bool)
    requires a.arg0.Printable() && a.arg1.Printable()
    ensures ok && b.arg0.Printable() && b.arg1.Printable()
    ensures b.arg0.Array() == a.arg0.Array() && b.arg1.Array() == a.arg1.Array()
  {
    var children := PrintedBatch(a);
    BatchRoundTrip(strict, a.arg0.Array(), a.arg1.Array());
    b, ok := ParsedBatch(children, strict);
  }

  method PrintedFiles(a: DeleteFiles) returns (children: seq<Child>)
    requires a.arg0.Some? && a.arg1.Printable()
    ensures children == Elements("arg0", [a.arg0.value]) + Elements("arg1", a.arg1.Array())
  {
    var soap := new Writer();
    a.SoapOut(soap);
    children := soap.children;
    Empty(children);
  }

  method ParsedFiles(children: seq<Child>, strict: bool) returns (b: DeleteFiles, ok: bool)
    ensures ok <==> FirstError(FILES, strict, children) == Ok
    ensures ok ==> b.Scalar(Values(children, "arg0"))
    ensures ok ==> b.arg1.Printable() && b.arg1.Array() == Values(children, "arg1")
  {
    var soap := new Reader(children, strict);
    b := new DeleteFiles();
    ok := b.SoapIn(soap);
  }

  method PrintAndParseFiles(a: DeleteFiles, strict: bool) returns (b: DeleteFiles, ok: bool)
    requires a.arg0.Some? && a.arg1.Printable()
    ensures ok && b.arg0 == a.arg0 && b.arg1.Printable() && b.arg1.Array() == a.arg1.Array()
  {
    var children := PrintedFiles(a);
    FilesRoundTrip(strict, a.arg0.value, a.arg1.Array());
    b, ok := ParsedFiles(children, strict);
  }
}
