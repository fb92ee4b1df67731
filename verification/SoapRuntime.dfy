/**
 What the generated parsers use of the runtime: a cursor over the child elements of the element being
 parsed, an error code, the strict mode bit, and block lists. stdsoap2 is not part of this model.
 */
module SoapRuntime {
  import opened Options

  datatype Error = Ok | TagMismatch | NoTag | MustUnderstand | Fault(code: nat)

  /**
   How reading a child as a string goes: it succeeds, or fails with SOAP_TAG_MISMATCH, or with an error
   that ends the parse.
   */
  datatype Body = Text(s: string) | Mismatch | Broken(code: nat)

  /** reserved: the tag has the SOAP-ENV: prefix. No child carries an id. */
  datatype Child = Child(tag: string, body: Body, mustUnderstand: bool, reserved: bool)

  class Reader {
    const children: seq<Child>
    const strict: bool
    var pos: nat
    var error: Error

    constructor (children: seq<Child>, strict: bool)
      ensures this.children == children && this.strict == strict && pos == 0
    {
      this.children, this.strict, pos, error := children, strict, 0, Ok;
    }

    predicate AtEnd()
      reads this
    {
      pos >= |children|
    }

    /** soap_element_begin_in(soap, tag, 1, NULL), followed at once by soap_revert when it succeeds. */
    method BeginIn(tag: string) returns (ok: bool)
      modifies this`error
      ensures ok <==> !AtEnd() && children[pos].tag == tag
      ensures error == if AtEnd() then NoTag else if ok then Ok else TagMismatch
    {
      if AtEnd() {
        error := NoTag;
      } else if children[pos].tag == tag {
        error := Ok;
      } else {
        error := TagMismatch;
      }
      ok := error == Ok;
    }

    /** soap_in_string(soap, tag, p, "xsd:string") */
    method InString(tag: string) returns (s: Option<string>)
      modifies this
      ensures var here := old(!AtEnd()) && children[old(pos)].tag == tag;
              && (s.Some? <==> here && children[old(pos)].body.Text?)
              && (s.Some? ==> s.value == children[old(pos)].body.s && pos == old(pos) + 1 && error == Ok)
              && (s.None? ==> pos == old(pos))
              && (s.None? ==>
                    error == (if old(AtEnd()) then NoTag
                              else if here && children[pos].body.Broken? then Fault(children[pos].body.code)
                              else TagMismatch))
    {
      s := None;
      var ok := BeginIn(tag);
      if ok {
        match children[pos].body
        case Text(value) =>
          s := Some(value);
          pos := pos + 1;
        case Mismatch => error := TagMismatch;
        case Broken(code) => error := Fault(code);
      }
    }

    /** soap_ignore_element, with no fignore handler and outside a header. */
    method IgnoreElement()
      modifies this
      ensures old(AtEnd()) ==> error == NoTag && pos == old(pos)
      ensures !old(AtEnd()) ==>
                var e := Ignored(children[old(pos)], strict);
                error == e && pos == old(pos) + if e == Ok then 1 else 0
    {
      if AtEnd() {
        error := NoTag;
      } else if children[pos].mustUnderstand {
        error := MustUnderstand;
      } else if strict || children[pos].reserved {
        error := TagMismatch;
      } else {
        error := Ok;
        pos := pos + 1;
      }
    }
  }

  /** The outcome of soap_ignore_element on a child. */
  function Ignored(c: Child, strict: bool): Error {
    if c.mustUnderstand then MustUnderstand
    else if strict || c.reserved then TagMismatch
    else Ok
  }

  /** The print side: soap_outstring appends one element. */
  class Writer {
    var children: seq<Child>

    constructor ()
      ensures children == []
    {
      children := [];
    }

    method OutString(tag: string, s: string)
      modifies this
      ensures children == old(children) + [Child(tag, Text(s), false, false)]
    {
      children := children + [Child(tag, Text(s), false, false)];
    }
  }
}
