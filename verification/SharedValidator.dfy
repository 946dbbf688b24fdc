/** `JsonValidator::Validate`: one call, and any number of calls on one validator behind a mutex. */
module SharedValidator {
  import opened Common
  import opened Json
  import opened Machine
  import opened Schema
  import opened Tokens
  import DocumentPath
  import Documents
  import Driver = JsonValidator
  import Grammar
  import JsonDocuments
  import JsonTexts
  import MachineProof
  import RoundTrip
  import SchemaValidator
  import Validation

  datatype Verdict = Accepted | ParserError(code: ParseErrorCode, offset: nat) | Rejected

  /** The verdict a text deserves, by the meaning of the schema. */
  ghost predicate Deserves(root: Schema, text: Bytes, convert: Converter, verdict: Verdict) {
    var r := Grammar.Parse(text, convert);
    match verdict
    case ParserError(code, offset) => r.Failed? && r.code == code && r.offset == offset
    case Accepted => exists v :: RoundTrip.Denotes(text, convert, v) && Valid(root, v)
    case Rejected => exists v :: RoundTrip.Denotes(text, convert, v) && !Valid(root, v)
  }

  /** A text deserves only one verdict. */
  lemma DeservesOne(root: Schema, text: Bytes, convert: Converter, a: Verdict, b: Verdict)
    requires Deserves(root, text, convert, a) && Deserves(root, text, convert, b)
    ensures a == b
  {
    if Grammar.Parse(text, convert).Done? {
      var v := RoundTrip.DenotesOne(text, convert);
      hide Valid, Grammar.Parse;
    }
  }

  lemma DenotedVerdict(root: Schema, text: Bytes, convert: Converter, v: Value, verdict: Verdict)
    requires RoundTrip.Denotes(text, convert, v)
    ensures Deserves(root, text, convert, verdict) <==>
            (verdict == if Valid(root, v) then Accepted else Rejected)
  {
    assert Grammar.Parse(text, convert).Done?;
    var only := RoundTrip.DenotesOne(text, convert);
    hide Grammar.Parse, Valid, RoundTrip.Denotes;
  }

  /** A text of RFC 8259 whose numbers are not too big deserves the verdict of the schema on the
      value it stands for. */
  lemma TextVerdict(root: Schema, text: Bytes, d: JsonDocuments.Document, convert: Converter, verdict: Verdict)
    requires JsonDocuments.IsDocument(d) && JsonDocuments.Shows(text, JsonDocuments.DocumentText(d))
    requires JsonTexts.Converts(d.value, convert) && JsonTexts.Moderate(d.value)
    ensures Deserves(root, text, convert, verdict) <==>
            (verdict == if Valid(root, JsonTexts.TreeOf(d.value, convert)) then Accepted else Rejected)
  {
    hide *;
    JsonDocuments.DocumentIs(d);
    JsonDocuments.DocumentReads(text, d, convert);
    DenotedVerdict(root, text, convert, JsonTexts.TreeOf(d.value, convert), verdict);
  }

  /** Any other text deserves a parser error. */
  lemma MalformedVerdict(root: Schema, text: Bytes, convert: Converter, verdict: Verdict)
    requires forall d :: JsonDocuments.IsDocument(d) ==> !JsonDocuments.Shows(text, JsonDocuments.DocumentText(d))
    requires Deserves(root, text, convert, verdict)
    ensures verdict.ParserError?
  {
    if Grammar.Parse(text, convert).Done? {
      hide *;
      var d := JsonDocuments.AcceptedIsDocument(text, convert);
      assert false;
    }
    hide Grammar.Parse, Valid;
  }

  // ----- one call -----

  class JsonValidator {
    const validator_: SchemaValidator.GenericSchemaValidator
    const convert: Converter

    constructor (schema: Schema, convert: Converter)
      ensures fresh(validator_) && validator_.root == schema && validator_.State() == Fresh(schema, [])
      ensures this.convert == convert
    {
      validator_ := new SchemaValidator.GenericSchemaValidator(schema);
      this.convert := convert;
    }

    /** A call finds the shared validator as new and leaves it so, whatever the verdict. */
    method Validate(json_str: Bytes) returns (verdict: Verdict)
      requires validator_.State() == Fresh(validator_.root, [])
      modifies validator_
      ensures validator_.State() == Fresh(validator_.root, [])
      ensures Deserves(validator_.root, json_str, convert, verdict)
    {
      var doc := new Documents.GenericDocument();
      hide Valid, Grammar.Parse;
      var failure := RoundTrip.ParseStream(doc, json_str, convert);
      if failure.Some? {
        return ParserError(failure.value.0, failure.value.1);
      }
      Ready(validator_.root);
      Validation.RootRun(validator_.root, [], doc.root);
      hide Driver.Accepting, DocumentPath.Open;
      var ok := Driver.Accept(doc.root, validator_, []);
      validator_.Reset();
      verdict := if ok then Accepted else Rejected;
    }
  }

  lemma Ready(root: Schema)
    ensures Driver.Accepting(Fresh(root, []), []) && DocumentPath.Open([])
  {
  }

  // ----- many calls -----

  /** Where a call is: parsing its own document, waiting for the mutex, sending the
      events of its tree, resetting context by context, about to unlock, or returned. */
  datatype Phase =
    | Parsing
    | Waiting(tree: Value)
    | Sending(tree: Value, sent: nat)
    | Resetting(tree: Value, ok: bool)
    | Unlocking(ok: bool)
    | Returned(verdict: Verdict)

  datatype Call = Call(text: Bytes, phase: Phase)

  datatype System = System(shared: Validator, owner: Option<nat>, calls: seq<Call>)

  predicate Critical(p: Phase) {
    p.Sending? || p.Resetting? || p.Unlocking?
  }

  ghost predicate Init(root: Schema, y: System) {
    y.shared == Fresh(root, []) && y.owner == None && forall i | 0 <= i < |y.calls| :: y.calls[i].phase == Parsing
  }

  /** Call `i` moves on to `p`. */
  function Moved(y: System, i: nat, p: Phase): System
    requires i < |y.calls|
  {
    y.(calls := y.calls[i := y.calls[i].(phase := p)])
  }

  /** One step of call `i`: every access to the shared validator is a step of its own. */
  ghost predicate StepOf(convert: Converter, y: System, z: System, i: nat) {
    i < |y.calls| &&
    match y.calls[i].phase
    case Parsing =>
      var r := Grammar.Parse(y.calls[i].text, convert);
      if r.Failed? then z == Moved(y, i, Returned(ParserError(r.code, r.offset)))
      else z.calls != [] && |z.calls| == |y.calls| && z.calls[i].phase.Waiting?
           && RoundTrip.Denotes(y.calls[i].text, convert, z.calls[i].phase.tree)
           && z == Moved(y, i, z.calls[i].phase)
    case Waiting(tree) => y.owner == None && z == Moved(y, i, Sending(tree, 0)).(owner := Some(i))
    case Sending(tree, sent) =>
      sent < |Events(tree)| &&
      var shared := Step(y.shared, Events(tree)[sent]);
      var next :=
        if !shared.valid then Resetting(tree, false)
        else if sent + 1 < |Events(tree)| then Sending(tree, sent + 1)
        else Resetting(tree, true);
      z == Moved(y, i, next).(shared := shared)
    case Resetting(tree, ok) =>
      var stack := y.shared.schemaStack;
      if stack != [] then z == y.(shared := y.shared.(schemaStack := stack[..|stack| - 1]))
      else z == Moved(y, i, Unlocking(ok)).(shared := y.shared.(documentStack := [], valid := true))
    case Unlocking(ok) => z == Moved(y, i, Returned(if ok then Accepted else Rejected)).(owner := None)
    case Returned(_) => false
  }

  ghost predicate NextStep(convert: Converter, y: System, z: System) {
    exists i :: StepOf(convert, y, z, i)
  }

  /** What holds of one call, given who owns the mutex. */
  ghost predicate CallKept(root: Schema, convert: Converter, y: System, i: nat)
    requires i < |y.calls|
  {
    var c := y.calls[i];
    (Critical(c.phase) <==> y.owner == Some(i)) &&
    match c.phase
    case Parsing => true
    case Waiting(tree) => RoundTrip.Denotes(c.text, convert, tree)
    case Sending(tree, sent) =>
      RoundTrip.Denotes(c.text, convert, tree) && sent < |Events(tree)|
      && y.shared == Run(Fresh(root, []), Events(tree)[..sent]) && y.shared.valid
    case Resetting(tree, ok) => RoundTrip.Denotes(c.text, convert, tree) && ok == Valid(root, tree) && y.shared.root == root
    case Unlocking(ok) =>
      Deserves(root, c.text, convert, if ok then Accepted else Rejected) && y.shared == Fresh(root, [])
    case Returned(verdict) => Deserves(root, c.text, convert, verdict)
  }

  /** The invariant: whenever the mutex is free the shared validator is as new, and every
      call that has returned has given the verdict its text deserves. */
  ghost predicate Kept(root: Schema, convert: Converter, y: System) {
    && (y.owner == None ==> y.shared == Fresh(root, []))
    && (y.owner.Some? ==> y.owner.value < |y.calls|)
    && forall i | 0 <= i < |y.calls| :: CallKept(root, convert, y, i)
  }

  lemma {:induction false} RunRoot(v: Validator, es: seq<Event>)
    ensures Run(v, es).root == v.root
    decreases |es|
  {
    if es != [] {
      hide Step;
      RunRoot(Step(v, es[0]), es[1..]);
    }
  }

  /** One more event of a tree. */
  lemma SendsOne(root: Schema, tree: Value, sent: nat)
    requires sent < |Events(tree)| && Run(Fresh(root, []), Events(tree)[..sent]).valid
    ensures var next := Step(Run(Fresh(root, []), Events(tree)[..sent]), Events(tree)[sent]);
      && next == Run(Fresh(root, []), Events(tree)[..sent + 1]) && next.root == root
      && (!next.valid ==> !Valid(root, tree))
      && (next.valid && sent + 1 == |Events(tree)| ==> Valid(root, tree))
  {
    hide Step, Events, Valid;
    var v0, es := Fresh(root, []), Events(tree);
    var done, e := es[..sent], es[sent];
    assert es[..sent + 1] == done + [e];
    MachineProof.RunAppend(v0, done, [e]);
    MachineProof.RunOne(Run(v0, done), e);
    RunRoot(v0, es[..sent + 1]);
    assert es == es[..sent + 1] + es[sent + 1..];
    MachineProof.RunAppend(v0, es[..sent + 1], es[sent + 1..]);
    var next := Run(v0, es[..sent + 1]);
    if !next.valid { MachineProof.RunInvalid(next, es[sent + 1..]); }
    Validation.RootRun(root, [], tree);
    assert sent + 1 == |es| ==> es[sent + 1..] == [];
  }

  /** Calls other than `i` only watch the mutex. */
  lemma OthersKept(root: Schema, convert: Converter, y: System, z: System, i: nat, j: nat)
    requires i < |y.calls| == |z.calls| && j < |y.calls| && j != i && z.calls[j] == y.calls[j]
    requires CallKept(root, convert, y, j)
    requires z.owner == y.owner || (y.owner == None && z.owner == Some(i)) || (y.owner == Some(i) && z.owner == None)
    requires z.shared == y.shared || y.owner == Some(i)
    ensures CallKept(root, convert, z, j)
  {
    hide Step, Run, Valid, RoundTrip.Denotes, Deserves, Events;
  }

  /** The call that moves. */
  lemma MovedKept(root: Schema, convert: Converter, y: System, z: System, i: nat)
    requires Kept(root, convert, y) && StepOf(convert, y, z, i)
    ensures |z.calls| == |y.calls| && CallKept(root, convert, z, i)
    ensures z.owner == y.owner || (y.owner == None && z.owner == Some(i)) || (y.owner == Some(i) && z.owner == None)
    ensures z.shared == y.shared || y.owner == Some(i)
    ensures z.owner == None ==> z.shared == Fresh(root, [])
    ensures forall j | 0 <= j < |y.calls| && j != i :: z.calls[j] == y.calls[j]
  {
    assert CallKept(root, convert, y, i);
    var c := y.calls[i];
    match c.phase
    case Parsing =>
      hide Valid, RoundTrip.Denotes, Grammar.Parse;
    case Waiting(tree) =>
      assert Events(tree) != [] && Events(tree)[..0] == [];
      hide Valid, RoundTrip.Denotes, Events;
    case Sending(tree, sent) =>
      SendsOne(root, tree, sent);
      hide Valid, RoundTrip.Denotes, Events, Run, Step, Deserves;
    case Resetting(tree, ok) =>
      hide Valid, RoundTrip.Denotes, Events, Grammar.Parse;
      if y.shared.schemaStack == [] { Verdicts(root, c.text, convert, tree, ok); }
    case Unlocking(ok) =>
      hide Valid, RoundTrip.Denotes, Events, Deserves;
    case Returned(_) =>
  }

  lemma Verdicts(root: Schema, text: Bytes, convert: Converter, tree: Value, ok: bool)
    requires RoundTrip.Denotes(text, convert, tree) && ok == Valid(root, tree)
    ensures Deserves(root, text, convert, if ok then Accepted else Rejected)
  {
    hide Valid, RoundTrip.Denotes, Grammar.Parse;
  }

  /** Every step of every call keeps the invariant. */
  lemma StepKeeps(root: Schema, convert: Converter, y: System, z: System, i: nat)
    requires Kept(root, convert, y) && StepOf(convert, y, z, i)
    ensures Kept(root, convert, z)
  {
    MovedKept(root, convert, y, z, i);
    forall j | 0 <= j < |z.calls|
      ensures CallKept(root, convert, z, j)
    {
      if j != i { OthersKept(root, convert, y, z, i, j); }
    }
    hide StepOf, CallKept;
  }

  ghost predicate IsRun(root: Schema, convert: Converter, run: seq<System>) {
    run != [] && Init(root, run[0]) && forall k | 0 < k < |run| :: NextStep(convert, run[k - 1], run[k])
  }

  lemma {:induction false} RunKeeps(root: Schema, convert: Converter, run: seq<System>, k: nat)
    requires IsRun(root, convert, run) && k < |run|
    ensures Kept(root, convert, run[k])
    decreases k
  {
    if k > 0 {
      RunKeeps(root, convert, run, k - 1);
      assert NextStep(convert, run[k - 1], run[k]);
      var i :| StepOf(convert, run[k - 1], run[k], i);
      StepKeeps(root, convert, run[k - 1], run[k], i);
    }
  }

  /** In every interleaving, a call that has returned has given the verdict of a fresh
      validator on its own text, and whenever the mutex is free the shared validator is in
      its initial state. */
  lemma EveryInterleaving(root: Schema, convert: Converter, run: seq<System>, k: nat, i: nat)
    requires IsRun(root, convert, run) && k < |run| && i < |run[k].calls| && run[k].calls[i].phase.Returned?
    ensures Deserves(root, run[k].calls[i].text, convert, run[k].calls[i].phase.verdict)
    ensures run[k].owner == None ==> run[k].shared == Fresh(root, [])
  {
    RunKeeps(root, convert, run, k);
    assert CallKept(root, convert, run[k], i);
  }
}
