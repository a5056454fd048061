/** `DependencyCollection.AddDependency` and the expression rewrite of
    `DependencyCollector.Create` (DependencyCollector.cs), over a small
    expression tree standing for `System.Linq.Expressions`: property and field
    accesses, nested lambdas, and every other node as an operator over its
    children. */
module DependencyCollector {
  import opened Types
  import opened Dependencies

  // ---------------------------------------------------------------- the dependency buffer

  /** The shared `List<(Source, Property, Cookie)>` the evaluations record into. */
  class EntryBuffer {
    var entries: seq<Entry>

    constructor ()
      ensures entries == []
    {
      entries := [];
    }
  }

  /** `DependencyCollection`: the buffer and the cookie of one evaluation. */
  datatype Collection = Collection(storage: EntryBuffer, cookie: int)

  /** `AddDependency(source, property)`: appends one entry with the collection's
      cookie and hands the source back unchanged. */
  method AddDependency(c: Collection, source: ObjId, property: Name) returns (r: ObjId)
    modifies c.storage
    ensures c.storage.entries == old(c.storage.entries) + [Entry(source, property, c.cookie)]
    ensures r == source
  {
    c.storage.entries := c.storage.entries + [Entry(source, property, c.cookie)];
    r := source;
  }

  // ---------------------------------------------------------------- expression trees

  /** The static type of a node: its name, whether it implements
      `INotifyPropertyChanged`, and whether it is a value type. */
  datatype Ty = Ty(name: string, notifies: bool, isValueType: bool)

  /** `node.Member is PropertyInfo`, or a field. */
  datatype MemberKind = Property | Field

  datatype Expr =
    | Leaf(id: nat, ty: Ty)
    | Member(receiver: Option<Expr>, kind: MemberKind, member: Name, ty: Ty)
    | Node(op: string, args: seq<Expr>, ty: Ty)
    | Lambda(body: Expr, ty: Ty)
    | Record(recorded: Expr, property: Name)

  // A `Leaf` is a parameter or a constant. A `Member` without a receiver is a
  // static member. A `Node` is any other node (a call, an operator, a
  // conditional...) whose children are evaluated left to right. `Record(e, p)`
  // is the call `dependencies.AddDependency(e, "p")` the rewrite inserts.

  /** `node.Type`; `AddDependency<TSource>` returns its receiver's type. */
  function TypeOf(e: Expr): Ty {
    match e
    case Leaf(_, ty) => ty
    case Member(_, _, _, ty) => ty
    case Node(_, _, ty) => ty
    case Lambda(_, ty) => ty
    case Record(r, _) => TypeOf(r)
  }

  /** `typeof(INotifyPropertyChanged).IsAssignableFrom(t) && !t.IsValueType`. */
  predicate Observable(t: Ty) {
    t.notifies && !t.isValueType
  }

  /** The message of the `ArgumentException` for a read inside a nested lambda
      (with the source's spelling of "lambda"). */
  function NestedReadMessage(t: Ty, member: Name): string {
    "Unable to read the property " + t.name + "." + member
    + " inside a nested labda, please lift it to the top-level expression."
  }

  // ---------------------------------------------------------------- the rewrite

  /** `Visitor.Visit`: every property read whose (rewritten) receiver has an
      observable reference type is routed through `AddDependency`; nested
      lambdas are only checked by `LambdaVisitor`. A static property has no
      receiver, and asking for the type of the missing receiver throws. */
  function Visit(e: Expr): (r: Result<Expr>)
    ensures r.Ok? ==> TypeOf(r.value) == TypeOf(e)
    decreases e, 1
  {
    match e
    case Leaf(_, _) => Ok(e)
    case Member(None, kind, m, ty) =>
      if kind == Property then Err(NullReference) else Ok(e)
    case Member(Some(x), kind, m, ty) =>
      var x' := Visit(x);
      if x'.Err? then Err(x'.error)
      else if kind == Property && Observable(TypeOf(x'.value)) then
        Ok(Member(Some(Record(x'.value, m)), kind, m, ty))
      else Ok(Member(Some(x'.value), kind, m, ty))
    case Node(op, args, ty) =>
      var args' := VisitAll(args);
      if args'.Err? then Err(args'.error) else Ok(Node(op, args'.value, ty))
    case Lambda(body, ty) =>
      var c := Check(body);
      if c.Fail? then Err(c.error) else Ok(e)
    case Record(x, p) =>
      var x' := Visit(x);
      if x'.Err? then Err(x'.error) else Ok(Record(x'.value, p))
  }

  /** The children of a node, left to right; the first failure wins. */
  function VisitAll(es: seq<Expr>): (r: Result<seq<Expr>>)
    ensures r.Ok? ==> |r.value| == |es|
    decreases es, 0
  {
    if es == [] then Ok([])
    else
      var h := Visit(es[0]);
      if h.Err? then Err(h.error)
      else
        var t := VisitAll(es[1..]);
        if t.Err? then Err(t.error) else Ok([h.value] + t.value)
  }

  /** `LambdaVisitor.Visit`: a property read on an observable receiver anywhere
      inside a nested lambda is rejected; the node is checked before its
      receiver. A static property read throws there as well. */
  function Check(e: Expr): (r: Outcome)
    ensures r.Fail? ==> r.error.NullReference? || r.error.Argument?
    decreases e, 1
  {
    match e
    case Leaf(_, _) => Pass
    case Member(None, kind, m, ty) =>
      if kind == Property then Fail(NullReference) else Pass
    case Member(Some(x), kind, m, ty) =>
      if kind == Property && Observable(TypeOf(x)) then Fail(Argument(NestedReadMessage(TypeOf(x), m)))
      else Check(x)
    case Node(_, args, _) => CheckAll(args)
    case Lambda(body, _) => Check(body)
    case Record(x, _) => Check(x)
  }

  function CheckAll(es: seq<Expr>): (r: Outcome)
    ensures r.Fail? ==> r.error.NullReference? || r.error.Argument?
    decreases es, 0
  {
    if es == [] then Pass
    else if Check(es[0]).Fail? then Check(es[0])
    else CheckAll(es[1..])
  }

  /** `DependencyCollector.Create(expression)`: the rewritten body, or the
      exception the rewrite throws. */
  function Create(body: Expr): (r: Result<Expr>)
    ensures r.Ok? ==> TypeOf(r.value) == TypeOf(body)
  {
    Visit(body)
  }

  // ---------------------------------------------------------------- reference views of a tree

  /** The tree without the inserted `AddDependency` calls. */
  function Strip(e: Expr): Expr
    decreases e, 1
  {
    match e
    case Leaf(_, _) => e
    case Member(None, _, _, _) => e
    case Member(Some(x), kind, m, ty) => Member(Some(Strip(x)), kind, m, ty)
    case Node(op, args, ty) => Node(op, StripAll(args), ty)
    case Lambda(body, ty) => Lambda(Strip(body), ty)
    case Record(x, _) => Strip(x)
  }

  function StripAll(es: seq<Expr>): (r: seq<Expr>)
    ensures |r| == |es|
    decreases es, 0
  {
    if es == [] then [] else [Strip(es[0])] + StripAll(es[1..])
  }

  /** A tree as the user writes it: no `AddDependency` call in it. */
  predicate Written(e: Expr)
    decreases e, 1
  {
    match e
    case Leaf(_, _) => true
    case Member(None, _, _, _) => true
    case Member(Some(x), _, _, _) => Written(x)
    case Node(_, args, _) => WrittenAll(args)
    case Lambda(body, _) => Written(body)
    case Record(_, _) => false
  }

  predicate WrittenAll(es: seq<Expr>)
    decreases es, 0
  {
    es == [] || (Written(es[0]) && WrittenAll(es[1..]))
  }

  /** The observable property reads of a tree outside its nested lambdas, in
      tree order (a receiver before the read on it), one per occurrence; an
      evaluation that skips a branch records fewer. */
  function Reads(e: Expr): seq<(Expr, Name)>
    decreases e, 1
  {
    match e
    case Leaf(_, _) => []
    case Member(None, _, _, _) => []
    case Member(Some(x), kind, m, _) =>
      Reads(x) + if kind == Property && Observable(TypeOf(x)) then [(x, m)] else []
    case Node(_, args, _) => ReadsAll(args)
    case Lambda(_, _) => []
    case Record(x, _) => Reads(x)
  }

  function ReadsAll(es: seq<Expr>): seq<(Expr, Name)>
    decreases es, 0
  {
    if es == [] then [] else Reads(es[0]) + ReadsAll(es[1..])
  }

  /** The `AddDependency` calls the rewrite inserted into a tree, in the order
      of the tree, each with the (unrewritten) receiver it records. Lambda
      bodies hold none. An evaluation makes those of the branches it takes. */
  function Trace(e: Expr): seq<(Expr, Name)>
    decreases e, 1
  {
    match e
    case Leaf(_, _) => []
    case Member(None, _, _, _) => []
    case Member(Some(x), _, _, _) => Trace(x)
    case Node(_, args, _) => TraceAll(args)
    case Lambda(_, _) => []
    case Record(x, p) => Trace(x) + [(Strip(x), p)]
  }

  function TraceAll(es: seq<Expr>): seq<(Expr, Name)>
    decreases es, 0
  {
    if es == [] then [] else Trace(es[0]) + TraceAll(es[1..])
  }

  /** A read the rewrite cannot handle anywhere in `e`: an observable property
      read, or a static property read. */
  predicate Unliftable(e: Expr)
    decreases e, 1
  {
    match e
    case Leaf(_, _) => false
    case Member(None, kind, _, _) => kind == Property
    case Member(Some(x), kind, _, _) => (kind == Property && Observable(TypeOf(x))) || Unliftable(x)
    case Node(_, args, _) => UnliftableAll(args)
    case Lambda(body, _) => Unliftable(body)
    case Record(x, _) => Unliftable(x)
  }

  predicate UnliftableAll(es: seq<Expr>)
    decreases es, 0
  {
    es != [] && (Unliftable(es[0]) || UnliftableAll(es[1..]))
  }

  /** What makes `Create` throw: a static property read outside the nested
      lambdas, or a nested lambda (at any depth) that reads an observable or a
      static property. */
  predicate Rejected(e: Expr)
    decreases e, 1
  {
    match e
    case Leaf(_, _) => false
    case Member(None, kind, _, _) => kind == Property
    case Member(Some(x), _, _, _) => Rejected(x)
    case Node(_, args, _) => RejectedAll(args)
    case Lambda(body, _) => Unliftable(body)
    case Record(x, _) => Rejected(x)
  }

  predicate RejectedAll(es: seq<Expr>)
    decreases es, 0
  {
    es != [] && (Rejected(es[0]) || RejectedAll(es[1..]))
  }

  /** Some static property read, at any depth. */
  predicate ReadsStatic(e: Expr)
    decreases e, 1
  {
    match e
    case Leaf(_, _) => false
    case Member(None, kind, _, _) => kind == Property
    case Member(Some(x), _, _, _) => ReadsStatic(x)
    case Node(_, args, _) => ReadsStaticAll(args)
    case Lambda(body, _) => ReadsStatic(body)
    case Record(x, _) => ReadsStatic(x)
  }

  predicate ReadsStaticAll(es: seq<Expr>)
    decreases es, 0
  {
    es != [] && (ReadsStatic(es[0]) || ReadsStaticAll(es[1..]))
  }

  // ---------------------------------------------------------------- lemmas

  /** `LambdaVisitor` rejects a lambda body exactly when some read in it cannot
      be lifted. */
  lemma {:induction false} CheckRejects(e: Expr)
    ensures Check(e).Fail? <==> Unliftable(e)
    decreases e, 1
  {
    match e
    case Leaf(_, _) =>
    case Member(None, _, _, _) =>
    case Member(Some(x), _, _, _) => CheckRejects(x);
    case Node(_, args, _) => CheckAllRejects(args);
    case Lambda(body, _) => CheckRejects(body);
    case Record(x, _) => CheckRejects(x);
  }

  lemma {:induction false} CheckAllRejects(es: seq<Expr>)
    ensures CheckAll(es).Fail? <==> UnliftableAll(es)
    decreases es, 0
  {
    if es != [] {
      CheckRejects(es[0]);
      CheckAllRejects(es[1..]);
    }
  }

  /** Without static property reads, the rejection is the `ArgumentException`
      for a read inside a nested lambda. */
  lemma {:induction false} CheckArgument(e: Expr)
    requires !ReadsStatic(e) && Check(e).Fail?
    ensures Check(e).error.Argument?
    decreases e, 1
  {
    match e
    case Member(Some(x), kind, _, _) =>
      if !(kind == Property && Observable(TypeOf(x))) {
        CheckArgument(x);
      }
    case Node(_, args, _) => CheckAllArgument(args);
    case Lambda(body, _) => CheckArgument(body);
    case Record(x, _) => CheckArgument(x);
  }

  lemma {:induction false} CheckAllArgument(es: seq<Expr>)
    requires !ReadsStaticAll(es) && CheckAll(es).Fail?
    ensures CheckAll(es).error.Argument?
    decreases es, 0
  {
    if Check(es[0]).Fail? {
      CheckArgument(es[0]);
    } else {
      CheckAllArgument(es[1..]);
    }
  }

  /** `Create` throws exactly for the rejected trees. */
  lemma {:induction false} VisitRejects(e: Expr)
    ensures Visit(e).Err? <==> Rejected(e)
    decreases e, 1
  {
    match e
    case Leaf(_, _) =>
    case Member(None, _, _, _) =>
    case Member(Some(x), _, _, _) => VisitRejects(x);
    case Node(_, args, _) => VisitAllRejects(args);
    case Lambda(body, _) => CheckRejects(body);
    case Record(x, _) => VisitRejects(x);
  }

  lemma {:induction false} VisitAllRejects(es: seq<Expr>)
    ensures VisitAll(es).Err? <==> RejectedAll(es)
    decreases es, 0
  {
    if es != [] {
      VisitRejects(es[0]);
      VisitAllRejects(es[1..]);
    }
  }

  /** Without static property reads, `Create` can only throw the
      `ArgumentException` of a nested lambda. */
  lemma {:induction false} VisitArgument(e: Expr)
    requires !ReadsStatic(e) && Visit(e).Err?
    ensures Visit(e).error.Argument?
    decreases e, 1
  {
    match e
    case Member(Some(x), _, _, _) => VisitArgument(x);
    case Node(_, args, _) => VisitAllArgument(args);
    case Lambda(body, _) => CheckArgument(body);
    case Record(x, _) => VisitArgument(x);
  }

  lemma {:induction false} VisitAllArgument(es: seq<Expr>)
    requires !ReadsStaticAll(es) && VisitAll(es).Err?
    ensures VisitAll(es).error.Argument?
    decreases es, 0
  {
    if Visit(es[0]).Err? {
      VisitArgument(es[0]);
    } else {
      VisitAllArgument(es[1..]);
    }
  }

  /** The rewrite only inserts `AddDependency` calls: removing them gives the
      tree back. */
  lemma {:induction false} VisitStrip(e: Expr)
    requires Visit(e).Ok?
    ensures Strip(Visit(e).value) == Strip(e)
    decreases e, 1
  {
    match e
    case Leaf(_, _) =>
    case Member(None, _, _, _) =>
    case Member(Some(x), _, _, _) => VisitStrip(x);
    case Node(_, args, _) => VisitAllStrip(args);
    case Lambda(_, _) =>
    case Record(x, _) => VisitStrip(x);
  }

  lemma {:induction false} VisitAllStrip(es: seq<Expr>)
    requires VisitAll(es).Ok?
    ensures StripAll(VisitAll(es).value) == StripAll(es)
    decreases es, 0
  {
    if es != [] {
      VisitStrip(es[0]);
      VisitAllStrip(es[1..]);
      assert VisitAll(es).value[1..] == VisitAll(es[1..]).value;
    }
  }

  /** A tree as the user writes it is its own stripped form. */
  lemma {:induction false} WrittenStrip(e: Expr)
    requires Written(e)
    ensures Strip(e) == e
    decreases e, 1
  {
    match e
    case Leaf(_, _) =>
    case Member(None, _, _, _) =>
    case Member(Some(x), _, _, _) => WrittenStrip(x);
    case Node(_, args, _) => WrittenAllStrip(args);
    case Lambda(body, _) => WrittenStrip(body);
  }

  lemma {:induction false} WrittenAllStrip(es: seq<Expr>)
    requires WrittenAll(es)
    ensures StripAll(es) == es
    decreases es, 0
  {
    if es != [] {
      WrittenStrip(es[0]);
      WrittenAllStrip(es[1..]);
      assert es == [es[0]] + es[1..];
    }
  }

  /** `Create` undone: stripping the rewritten tree of a user's tree gives back
      that tree. */
  lemma CreateStrip(e: Expr)
    requires Written(e) && Create(e).Ok?
    ensures Strip(Create(e).value) == e
  {
    VisitStrip(e);
    WrittenStrip(e);
  }

  /** The recording calls the rewrite inserts are exactly the observable
      property reads outside the nested lambdas, once per occurrence,
      receivers first. */
  lemma {:induction false} VisitTrace(e: Expr)
    requires Written(e) && Visit(e).Ok?
    ensures Trace(Visit(e).value) == Reads(e)
    decreases e, 1
  {
    match e
    case Leaf(_, _) =>
    case Member(None, _, _, _) =>
    case Member(Some(x), _, _, _) =>
      VisitTrace(x);
      VisitStrip(x);
      WrittenStrip(x);
    case Node(_, args, _) => VisitAllTrace(args);
    case Lambda(_, _) =>
  }

  lemma {:induction false} VisitAllTrace(es: seq<Expr>)
    requires WrittenAll(es) && VisitAll(es).Ok?
    ensures TraceAll(VisitAll(es).value) == ReadsAll(es)
    decreases es, 0
  {
    if es != [] {
      VisitTrace(es[0]);
      VisitAllTrace(es[1..]);
      assert VisitAll(es).value[1..] == VisitAll(es[1..]).value;
    }
  }

  /** A tree without observable property reads outside its lambdas comes back
      from the rewrite as it is. */
  lemma {:induction false} VisitUnchanged(e: Expr)
    requires Reads(e) == [] && Visit(e).Ok?
    ensures Visit(e).value == e
    decreases e, 1
  {
    match e
    case Leaf(_, _) =>
    case Member(None, _, _, _) =>
    case Member(Some(x), _, _, _) => VisitUnchanged(x);
    case Node(_, args, _) => VisitAllUnchanged(args);
    case Lambda(_, _) =>
    case Record(x, _) => VisitUnchanged(x);
  }

  lemma {:induction false} VisitAllUnchanged(es: seq<Expr>)
    requires ReadsAll(es) == [] && VisitAll(es).Ok?
    ensures VisitAll(es).value == es
    decreases es, 0
  {
    if es != [] {
      VisitUnchanged(es[0]);
      VisitAllUnchanged(es[1..]);
      assert es == [es[0]] + es[1..];
    }
  }
}
