/** Workflow conditions: the eager evaluator of `orchestration/condition_eval.py` against short-circuit semantics. */
module ConditionEval {
  import opened Wrappers

  datatype BoolOp = And | Or
  datatype UnaryOp = Not | OtherUnary(kind: string)
  datatype CmpOp = Eq | NotEq | Gt | GtE | Lt | LtE | In | NotIn | OtherCmp(kind: string)
  datatype BinOp = Add | Sub | Mult | Div | Mod | OtherBin(kind: string)

  /** A parsed expression; `Other` is every construct the evaluator does not know. */
  datatype Expr<V> =
    | Const(value: V)
    | Name(id: string)
    | Wrapped(body: Expr<V>)
    | Bool(bop: BoolOp, operands: seq<Expr<V>>)
    | Unary(uop: UnaryOp, operand: Expr<V>)
    | Compare(left: Expr<V>, ops: seq<CmpOp>, comparators: seq<Expr<V>>)
    | Subscript(base: Expr<V>, index: Expr<V>)
    | Bin(op: BinOp, lhs: Expr<V>, rhs: Expr<V>)
    | ListOf(elements: seq<Expr<V>>)
    | TupleOf(elements: seq<Expr<V>>)
    | DictOf(entries: seq<Expr<V>>)
    | Pair(key: Expr<V>, item: Expr<V>)   // an entry of a dictionary
    | Unpack(item: Expr<V>)               // an entry without a key
    | Other(kind: string)

  datatype Error =
    | UnknownName(id: string)
    | Unsupported(what: string)
    | LengthMismatch
    | Host(message: string)

  /** The host operations on values that both semantics use; each may raise. */
  datatype Prims<!V> = Prims(
    truthy: V -> bool,
    ofBool: bool -> V,
    compare: (CmpOp, V, V) -> Result<bool, Error>,
    binop: (BinOp, V, V) -> Result<V, Error>,
    getItem: (V, V) -> Result<V, Error>,
    ofList: seq<V> -> V,
    ofTuple: seq<V> -> V,
    emptyDict: V,
    setItem: (V, V, V) -> Result<V, Error>)

  ghost predicate Lawful<V(!new)>(h: Prims<V>) {
    forall b: bool :: h.truthy(h.ofBool(b)) == b
  }

  function Truths<V>(h: Prims<V>, vs: seq<V>): seq<bool> {
    seq(|vs|, i requires 0 <= i < |vs| => h.truthy(vs[i]))
  }

  function Combine(op: BoolOp, bs: seq<bool>): bool {
    match op
    case And => forall i :: 0 <= i < |bs| ==> bs[i]
    case Or => exists i :: 0 <= i < |bs| && bs[i]
  }

  // ---------- the eager evaluator ----------

  function Eval<V>(h: Prims<V>, e: Expr<V>, context: map<string, V>): Result<V, Error>
    decreases e, 1
  {
    match e
    case Const(v) => Success(v)
    case Name(id) => if id in context then Success(context[id]) else Failure(UnknownName(id))
    case Wrapped(body) => Eval(h, body, context)
    case Bool(op, operands) =>
      var vs :- EvalAll(h, operands, context);
      Success(h.ofBool(Combine(op, Truths(h, vs))))
    case Unary(op, operand) =>
      if op != Not then Failure(Unsupported("unary operator")) else
        var v :- Eval(h, operand, context);
        Success(h.ofBool(!h.truthy(v)))
    case Compare(left, ops, comparators) =>
      var l :- Eval(h, left, context);
      var b :- EvalChain(h, l, ops, comparators, context, true);
      Success(h.ofBool(b))
    case Subscript(base, index) =>
      var v :- Eval(h, base, context);
      var k :- Eval(h, index, context);
      h.getItem(v, k)
    case Bin(op, lhs, rhs) =>
      if op.OtherBin? then Failure(Unsupported("binary operator")) else
        var l :- Eval(h, lhs, context);
        var r :- Eval(h, rhs, context);
        h.binop(op, l, r)
    case ListOf(elements) =>
      var vs :- EvalAll(h, elements, context);
      Success(h.ofList(vs))
    case TupleOf(elements) =>
      var vs :- EvalAll(h, elements, context);
      Success(h.ofTuple(vs))
    case DictOf(entries) => EvalEntries(h, h.emptyDict, entries, context)
    case Pair(_, _) => Failure(Unsupported("entry"))
    case Unpack(_) => Failure(Unsupported("entry"))
    case Other(kind) => Failure(Unsupported(kind))
  }

  function EvalAll<V>(h: Prims<V>, es: seq<Expr<V>>, context: map<string, V>): (r: Result<seq<V>, Error>)
    ensures r.Success? ==> |r.value| == |es|
    decreases es, 0
  {
    if es == [] then Success([]) else
      var v :- Eval(h, es[0], context);
      var vs :- EvalAll(h, es[1..], context);
      Success([v] + vs)
  }

  /** The comparison loop: every comparator is evaluated, the operator only while the result is still true. */
  function EvalChain<V>(h: Prims<V>, left: V, ops: seq<CmpOp>, comparators: seq<Expr<V>>, context: map<string, V>, result: bool)
    : Result<bool, Error>
    decreases comparators, 0
  {
    if ops == [] && comparators == [] then Success(result)
    else if ops == [] || comparators == [] then Failure(LengthMismatch)
    else if ops[0].OtherCmp? then Failure(Unsupported("comparison operator")) else
      var right :- Eval(h, comparators[0], context);
      var b :- if result then h.compare(ops[0], left, right) else Success(false);
      EvalChain(h, right, ops[1..], comparators[1..], context, b)
  }

  function EvalEntries<V>(h: Prims<V>, dict: V, entries: seq<Expr<V>>, context: map<string, V>): Result<V, Error>
    decreases entries, 0
  {
    if entries == [] then Success(dict) else
      var d :- EvalEntry(h, dict, entries[0], context);
      EvalEntries(h, d, entries[1..], context)
  }

  /** Right-hand side first: the assignment evaluates the value before the key. */
  function EvalEntry<V>(h: Prims<V>, dict: V, entry: Expr<V>, context: map<string, V>): Result<V, Error>
    decreases entry, 1
  {
    match entry
    case Pair(keyExpr, itemExpr) =>
      var item :- Eval(h, itemExpr, context);
      var key :- Eval(h, keyExpr, context);
      h.setItem(dict, key, item)
    case _ => Failure(Unsupported("dict unpacking"))
  }

  /** `evaluate`: the four names of a condition and the truth of its value. */
  function Evaluate<V>(h: Prims<V>, e: Expr<V>, payload: V, response: V, action: V, accumulated: V): Result<bool, Error> {
    var v :- Eval(h, e, map["payload" := payload, "response" := response, "action" := action, "accumulated" := accumulated]);
    Success(h.truthy(v))
  }

  class SafeConditionEvaluator<!V> {
    const host: Prims<V>

    constructor (host: Prims<V>)
      ensures this.host == host
    {
      this.host := host;
    }

    /** `_eval`: every kind of node, each child through `EvalNode` again. */
    method EvalNode(e: Expr<V>, context: map<string, V>) returns (r: Result<V, Error>)
      ensures r == Eval(host, e, context)
      decreases e, 2
    {
      match e {
        case Const(v) => return Success(v);
        case Name(id) =>
          if id !in context { return Failure(UnknownName(id)); }
          return Success(context[id]);
        case Wrapped(body) => r := EvalNode(body, context);
        case Bool(op, operands) =>
          var values := EvalOperands(operands, context);
          if values.Failure? { return Failure(values.error); }
          return Success(host.ofBool(Combine(op, Truths(host, values.value))));
        case Unary(op, operand) =>
          if op != Not { return Failure(Unsupported("unary operator")); }
          var v := EvalNode(operand, context);
          if v.Failure? { return v; }
          return Success(host.ofBool(!host.truthy(v.value)));
        case Compare(_, _, _) => r := EvalCompare(e, context);
        case Subscript(_, _) => r := EvalSubscript(e, context);
        case Bin(_, _, _) => r := EvalBin(e, context);
        case ListOf(elements) =>
          var values := EvalOperands(elements, context);
          return if values.Failure? then Failure(values.error) else Success(host.ofList(values.value));
        case TupleOf(elements) =>
          var values := EvalOperands(elements, context);
          return if values.Failure? then Failure(values.error) else Success(host.ofTuple(values.value));
        case DictOf(_) => r := EvalDict(e, context);
        case Pair(_, _) => return Failure(Unsupported("entry"));
        case Unpack(_) => return Failure(Unsupported("entry"));
        case Other(kind) => return Failure(Unsupported(kind));
      }
    }

    /** The comprehension over operands or elements: in order, up to the first one that raises. */
    method EvalOperands(es: seq<Expr<V>>, context: map<string, V>) returns (r: Result<seq<V>, Error>)
      ensures r == EvalAll(host, es, context)
      decreases es, 0
    {
      var values: seq<V> := [];
      PrefixedNone(EvalAll(host, es, context));
      assert es[0..] == es;
      for i := 0 to |es|
        invariant EvalAll(host, es, context) == Prefixed(values, EvalAll(host, es[i..], context))
      {
        assert es[i..][1..] == es[i + 1..];
        var v := EvalNode(es[i], context);
        if v.Failure? { return Failure(v.error); }
        PrefixedSnoc(values, v.value, EvalAll(host, es[i + 1..], context));
        values := values + [v.value];
      }
      assert values + [] == values;
      return Success(values);
    }

    method EvalSubscript(e: Expr<V>, context: map<string, V>) returns (r: Result<V, Error>)
      requires e.Subscript?
      ensures r == Eval(host, e, context)
      decreases e, 1
    {
      var value := EvalNode(e.base, context);
      if value.Failure? { return value; }
      var key := EvalNode(e.index, context);
      if key.Failure? { return key; }
      return host.getItem(value.value, key.value);
    }

    method EvalBin(e: Expr<V>, context: map<string, V>) returns (r: Result<V, Error>)
      requires e.Bin?
      ensures r == Eval(host, e, context)
      decreases e, 1
    {
      if e.op.OtherBin? { return Failure(Unsupported("binary operator")); }
      var left := EvalNode(e.lhs, context);
      if left.Failure? { return left; }
      var right := EvalNode(e.rhs, context);
      if right.Failure? { return right; }
      return host.binop(e.op, left.value, right.value);
    }

    /** The loop over operators and comparators, which goes on after the result is false. */
    method EvalCompare(e: Expr<V>, context: map<string, V>) returns (r: Result<V, Error>)
      requires e.Compare?
      ensures r == Eval(host, e, context)
      decreases e, 1
    {
      var first := EvalNode(e.left, context);
      if first.Failure? { return first; }
      var left, result, i := first.value, true, 0;
      while i < |e.ops| && i < |e.comparators|
        invariant 0 <= i <= |e.ops| && i <= |e.comparators|
        invariant EvalChain(host, first.value, e.ops, e.comparators, context, true)
               == EvalChain(host, left, e.ops[i..], e.comparators[i..], context, result)
      {
        var op := e.ops[i];
        assert e.ops[i..][1..] == e.ops[i + 1..] && e.comparators[i..][1..] == e.comparators[i + 1..];
        if op.OtherCmp? { return Failure(Unsupported("comparison operator")); }
        var right := EvalNode(e.comparators[i], context);
        if right.Failure? { return right; }
        if result {
          var b := host.compare(op, left, right.value);
          if b.Failure? { return Failure(b.error); }
          result := b.value;
        }
        left := right.value;
        i := i + 1;
      }
      if i < |e.ops| || i < |e.comparators| { return Failure(LengthMismatch); }
      return Success(host.ofBool(result));
    }

    /** The loop that fills the result dictionary. */
    method EvalDict(e: Expr<V>, context: map<string, V>) returns (r: Result<V, Error>)
      requires e.DictOf?
      ensures r == Eval(host, e, context)
      decreases e, 1
    {
      var resultDict, i := host.emptyDict, 0;
      while i < |e.entries|
        invariant 0 <= i <= |e.entries|
        invariant EvalEntries(host, host.emptyDict, e.entries, context) == EvalEntries(host, resultDict, e.entries[i..], context)
      {
        assert e.entries[i..][1..] == e.entries[i + 1..];
        if !e.entries[i].Pair? { return Failure(Unsupported("dict unpacking")); }
        var item := EvalNode(e.entries[i].item, context);
        if item.Failure? { return item; }
        var key := EvalNode(e.entries[i].key, context);
        if key.Failure? { return key; }
        var d := host.setItem(resultDict, key.value, item.value);
        if d.Failure? { return d; }
        resultDict := d.value;
        i := i + 1;
      }
      return Success(resultDict);
    }
  }

  /** Values already computed, followed by those of the remaining operands. */
  function Prefixed<V>(values: seq<V>, rest: Result<seq<V>, Error>): Result<seq<V>, Error> {
    if rest.Success? then Success(values + rest.value) else rest
  }

  lemma PrefixedNone<V>(rest: Result<seq<V>, Error>)
    ensures Prefixed([], rest) == rest
  {
    if rest.Success? { assert [] + rest.value == rest.value; }
  }

  lemma PrefixedSnoc<V>(values: seq<V>, v: V, rest: Result<seq<V>, Error>)
    ensures Prefixed(values + [v], rest) == if rest.Success? then Prefixed(values, Success([v] + rest.value)) else rest
  {
    if rest.Success? { assert values + [v] + rest.value == values + ([v] + rest.value); }
  }

  // ---------- short-circuit semantics ----------

  function PyEval<V>(h: Prims<V>, e: Expr<V>, context: map<string, V>): Result<V, Error>
    decreases e, 1
  {
    match e
    case Const(v) => Success(v)
    case Name(id) => if id in context then Success(context[id]) else Failure(UnknownName(id))
    case Wrapped(body) => PyEval(h, body, context)
    case Bool(op, operands) => PyBool(h, op, operands, context)
    case Unary(op, operand) =>
      if op != Not then Failure(Unsupported("unary operator")) else
        var v :- PyEval(h, operand, context);
        Success(h.ofBool(!h.truthy(v)))
    case Compare(left, ops, comparators) =>
      var l :- PyEval(h, left, context);
      var b :- PyChain(h, l, ops, comparators, context);
      Success(h.ofBool(b))
    case Subscript(base, index) =>
      var v :- PyEval(h, base, context);
      var k :- PyEval(h, index, context);
      h.getItem(v, k)
    case Bin(op, lhs, rhs) =>
      var l :- PyEval(h, lhs, context);
      var r :- PyEval(h, rhs, context);
      h.binop(op, l, r)
    case ListOf(elements) =>
      var vs :- PyAll(h, elements, context);
      Success(h.ofList(vs))
    case TupleOf(elements) =>
      var vs :- PyAll(h, elements, context);
      Success(h.ofTuple(vs))
    case DictOf(entries) => PyEntries(h, h.emptyDict, entries, context)
    case Pair(_, _) => Failure(Unsupported("entry"))
    case Unpack(_) => Failure(Unsupported("entry"))
    case Other(kind) => Failure(Unsupported(kind))
  }

  function PyAll<V>(h: Prims<V>, es: seq<Expr<V>>, context: map<string, V>): Result<seq<V>, Error>
    decreases es, 0
  {
    if es == [] then Success([]) else
      var v :- PyEval(h, es[0], context);
      var vs :- PyAll(h, es[1..], context);
      Success([v] + vs)
  }

  /** `and` and `or` return the operand that decides and evaluate none after it. */
  function PyBool<V>(h: Prims<V>, op: BoolOp, es: seq<Expr<V>>, context: map<string, V>): Result<V, Error>
    decreases es, 0
  {
    if es == [] then Success(h.ofBool(op.And?)) else
      var v :- PyEval(h, es[0], context);
      if |es| == 1 || h.truthy(v) == op.Or? then Success(v) else PyBool(h, op, es[1..], context)
  }

  /** A chained comparison stops at the first link that is false. */
  function PyChain<V>(h: Prims<V>, left: V, ops: seq<CmpOp>, comparators: seq<Expr<V>>, context: map<string, V>): Result<bool, Error>
    decreases comparators, 0
  {
    if ops == [] && comparators == [] then Success(true)
    else if ops == [] || comparators == [] then Failure(LengthMismatch) else
      var right :- PyEval(h, comparators[0], context);
      var b :- h.compare(ops[0], left, right);
      if !b then Success(false) else PyChain(h, right, ops[1..], comparators[1..], context)
  }

  function PyEntries<V>(h: Prims<V>, dict: V, entries: seq<Expr<V>>, context: map<string, V>): Result<V, Error>
    decreases entries, 0
  {
    if entries == [] then Success(dict) else
      var d :- PyEntry(h, dict, entries[0], context);
      PyEntries(h, d, entries[1..], context)
  }

  /** A display evaluates the key first. */
  function PyEntry<V>(h: Prims<V>, dict: V, entry: Expr<V>, context: map<string, V>): Result<V, Error>
    decreases entry, 1
  {
    match entry
    case Pair(keyExpr, itemExpr) =>
      var key :- PyEval(h, keyExpr, context);
      var item :- PyEval(h, itemExpr, context);
      h.setItem(dict, key, item)
    case _ => Failure(Unsupported("dict unpacking"))
  }

  // ---------- where `and` and `or` may stand ----------

  /** Expressions whose value is always one of the two booleans. */
  ghost predicate BoolValued<V>(e: Expr<V>) {
    match e
    case Wrapped(body) => BoolValued(body)
    case Bool(_, operands) => operands != [] && forall x :: x in operands ==> BoolValued(x)
    case Unary(op, _) => op == Not
    case Compare(_, _, _) => true
    case _ => false
  }

  /** Only the truth of the value matters here: the root, operands of `and`, `or` and `not`. */
  ghost predicate TruthPosition<V>(e: Expr<V>)
    decreases e, 1
  {
    match e
    case Wrapped(body) => TruthPosition(body)
    case Bool(_, operands) => operands != [] && forall x :: x in operands ==> TruthPosition(x)
    case _ => ValuePosition(e)
  }

  /** The value itself is used: `and` and `or` are allowed on boolean-valued operands only. */
  ghost predicate ValuePosition<V>(e: Expr<V>)
    decreases e, 0
  {
    match e
    case Wrapped(body) => ValuePosition(body)
    case Bool(_, operands) => operands != [] && forall x :: x in operands ==> BoolValued(x) && ValuePosition(x)
    case Unary(_, operand) => TruthPosition(operand)
    case Compare(left, _, comparators) => ValuePosition(left) && forall x :: x in comparators ==> ValuePosition(x)
    case Subscript(base, index) => ValuePosition(base) && ValuePosition(index)
    case Bin(_, lhs, rhs) => ValuePosition(lhs) && ValuePosition(rhs)
    case ListOf(elements) => forall x :: x in elements ==> ValuePosition(x)
    case TupleOf(elements) => forall x :: x in elements ==> ValuePosition(x)
    case DictOf(entries) => forall x :: x in entries ==> ValuePosition(x)
    case Pair(key, item) => ValuePosition(key) && ValuePosition(item)
    case _ => true
  }

  // ---------- the eager evaluator agrees whenever it succeeds ----------

  lemma CombineCons(op: BoolOp, b: bool, bs: seq<bool>)
    ensures Combine(op, [b] + bs) == if b == op.Or? then b else Combine(op, bs)
    ensures Combine(op, [b]) == b
  {
    assert forall i :: 0 <= i < |bs| ==> ([b] + bs)[i + 1] == bs[i];
    if op.Or? && Combine(op, bs) {
      var i :| 0 <= i < |bs| && bs[i];
      assert ([b] + bs)[i + 1];
    }
    assert ([b] + bs)[0] == b && [b][0] == b;
  }

  lemma TruthsCons<V>(h: Prims<V>, v: V, vs: seq<V>)
    ensures Truths(h, [v] + vs) == [h.truthy(v)] + Truths(h, vs)
  {
  }

  lemma {:induction false} BoolValuedIsBool<V(!new)>(h: Prims<V>, e: Expr<V>, context: map<string, V>)
    requires Lawful(h) && BoolValued(e) && Eval(h, e, context).Success?
    ensures var v := Eval(h, e, context).value; v == h.ofBool(h.truthy(v))
  {
    if e.Wrapped? { BoolValuedIsBool(h, e.body, context); }
  }

  /** Where values matter, eager and short-circuit evaluation return the same value. */
  lemma {:induction false} ValueAgrees<V(!new)>(h: Prims<V>, e: Expr<V>, context: map<string, V>)
    requires Lawful(h) && ValuePosition(e) && Eval(h, e, context).Success?
    ensures PyEval(h, e, context) == Eval(h, e, context)
    decreases e, 0
  {
    match e
    case Const(_) =>
    case Name(_) =>
    case Wrapped(body) => ValueAgrees(h, body, context);
    case Bool(op, operands) => BoolValueAgrees(h, op, operands, context);
    case Unary(op, operand) => TruthAgrees(h, operand, context);
    case Compare(left, ops, comparators) =>
      ValueAgrees(h, left, context);
      ChainAgrees(h, Eval(h, left, context).value, ops, comparators, context);
    case Subscript(base, index) =>
      ValueAgrees(h, base, context);
      ValueAgrees(h, index, context);
    case Bin(_, lhs, rhs) =>
      ValueAgrees(h, lhs, context);
      ValueAgrees(h, rhs, context);
    case ListOf(elements) => AllAgree(h, elements, context);
    case TupleOf(elements) => AllAgree(h, elements, context);
    case DictOf(entries) => EntriesAgree(h, h.emptyDict, entries, context);
    case _ =>
  }

  /** Where only truth matters, whenever the eager evaluator returns a value, short-circuit evaluation succeeds with the same truth. */
  lemma {:induction false} TruthAgrees<V(!new)>(h: Prims<V>, e: Expr<V>, context: map<string, V>)
    requires Lawful(h) && TruthPosition(e) && Eval(h, e, context).Success?
    ensures PyEval(h, e, context).Success?
    ensures h.truthy(PyEval(h, e, context).value) == h.truthy(Eval(h, e, context).value)
    decreases e, 1
  {
    match e
    case Wrapped(body) => TruthAgrees(h, body, context);
    case Bool(op, operands) => BoolTruthAgrees(h, op, operands, context);
    case _ => ValueAgrees(h, e, context);
  }

  lemma {:induction false} BoolTruthAgrees<V(!new)>(h: Prims<V>, op: BoolOp, es: seq<Expr<V>>, context: map<string, V>)
    requires Lawful(h) && es != [] && (forall x :: x in es ==> TruthPosition(x)) && EvalAll(h, es, context).Success?
    ensures PyBool(h, op, es, context).Success?
    ensures h.truthy(PyBool(h, op, es, context).value) == Combine(op, Truths(h, EvalAll(h, es, context).value))
    decreases es, 0
  {
    TruthAgrees(h, es[0], context);
    var v, rest := Eval(h, es[0], context).value, EvalAll(h, es[1..], context).value;
    TruthsCons(h, v, rest);
    CombineCons(op, h.truthy(v), Truths(h, rest));
    if |es| > 1 {
      BoolTruthAgrees(h, op, es[1..], context);
    } else {
      assert [h.truthy(v)] + Truths(h, rest) == [h.truthy(v)];
    }
  }

  lemma {:induction false} BoolValueAgrees<V(!new)>(h: Prims<V>, op: BoolOp, es: seq<Expr<V>>, context: map<string, V>)
    requires Lawful(h) && es != [] && EvalAll(h, es, context).Success?
    requires forall x :: x in es ==> BoolValued(x) && ValuePosition(x)
    ensures PyBool(h, op, es, context) == Success(h.ofBool(Combine(op, Truths(h, EvalAll(h, es, context).value))))
    decreases es, 0
  {
    ValueAgrees(h, es[0], context);
    BoolValuedIsBool(h, es[0], context);
    var v, rest := Eval(h, es[0], context).value, EvalAll(h, es[1..], context).value;
    TruthsCons(h, v, rest);
    CombineCons(op, h.truthy(v), Truths(h, rest));
    if |es| > 1 {
      BoolValueAgrees(h, op, es[1..], context);
    } else {
      assert [h.truthy(v)] + Truths(h, rest) == [h.truthy(v)];
    }
  }

  lemma {:induction false} AllAgree<V(!new)>(h: Prims<V>, es: seq<Expr<V>>, context: map<string, V>)
    requires Lawful(h) && (forall x :: x in es ==> ValuePosition(x)) && EvalAll(h, es, context).Success?
    ensures PyAll(h, es, context) == EvalAll(h, es, context)
    decreases es, 0
  {
    if es != [] {
      ValueAgrees(h, es[0], context);
      AllAgree(h, es[1..], context);
    }
  }

  /** After a false link the loop goes on evaluating, but its answer stays false. */
  lemma {:induction false} ChainStaysFalse<V>(h: Prims<V>, left: V, ops: seq<CmpOp>, comparators: seq<Expr<V>>, context: map<string, V>)
    ensures EvalChain(h, left, ops, comparators, context, false) in {Success(false)}
            || EvalChain(h, left, ops, comparators, context, false).Failure?
    decreases comparators
  {
    if ops != [] && comparators != [] && Eval(h, comparators[0], context).Success? {
      ChainStaysFalse(h, Eval(h, comparators[0], context).value, ops[1..], comparators[1..], context);
    }
  }

  lemma {:induction false} ChainAgrees<V(!new)>(h: Prims<V>, left: V, ops: seq<CmpOp>, comparators: seq<Expr<V>>, context: map<string, V>)
    requires Lawful(h) && (forall x :: x in comparators ==> ValuePosition(x))
    requires EvalChain(h, left, ops, comparators, context, true).Success?
    ensures PyChain(h, left, ops, comparators, context) == EvalChain(h, left, ops, comparators, context, true)
    decreases comparators, 0
  {
    if comparators != [] {
      ValueAgrees(h, comparators[0], context);
      var right := Eval(h, comparators[0], context).value;
      if h.compare(ops[0], left, right).value {
        ChainAgrees(h, right, ops[1..], comparators[1..], context);
      } else {
        ChainStaysFalse(h, right, ops[1..], comparators[1..], context);
      }
    }
  }

  lemma {:induction false} EntriesAgree<V(!new)>(h: Prims<V>, dict: V, entries: seq<Expr<V>>, context: map<string, V>)
    requires Lawful(h) && EvalEntries(h, dict, entries, context).Success?
    requires forall x :: x in entries ==> ValuePosition(x)
    ensures PyEntries(h, dict, entries, context) == EvalEntries(h, dict, entries, context)
    decreases entries, 0
  {
    if entries != [] {
      EntryAgrees(h, dict, entries[0], context);
      EntriesAgree(h, EvalEntry(h, dict, entries[0], context).value, entries[1..], context);
    }
  }

  lemma {:induction false} EntryAgrees<V(!new)>(h: Prims<V>, dict: V, entry: Expr<V>, context: map<string, V>)
    requires Lawful(h) && ValuePosition(entry) && EvalEntry(h, dict, entry, context).Success?
    ensures PyEntry(h, dict, entry, context) == EvalEntry(h, dict, entry, context)
    decreases entry, 1
  {
    match entry
    case Pair(key, item) =>
      ValueAgrees(h, item, context);
      ValueAgrees(h, key, context);
    case _ =>
  }

  // ---------- when the eager evaluator succeeds ----------

  /** Every construct and operator is one that the evaluator knows, and chains are well formed. */
  ghost predicate Supported<V>(e: Expr<V>)
    decreases e
  {
    match e
    case Const(_) => true
    case Name(_) => true
    case Wrapped(body) => Supported(body)
    case Bool(_, operands) => forall x :: x in operands ==> Supported(x)
    case Unary(op, operand) => op == Not && Supported(operand)
    case Compare(left, ops, comparators) =>
      && |ops| == |comparators| && (forall op :: op in ops ==> !op.OtherCmp?)
      && Supported(left) && forall x :: x in comparators ==> Supported(x)
    case Subscript(base, index) => Supported(base) && Supported(index)
    case Bin(op, lhs, rhs) => !op.OtherBin? && Supported(lhs) && Supported(rhs)
    case ListOf(elements) => forall x :: x in elements ==> Supported(x)
    case TupleOf(elements) => forall x :: x in elements ==> Supported(x)
    case DictOf(entries) => forall x :: x in entries ==> x.Pair? && Supported(x.key) && Supported(x.item)
    case _ => false
  }

  /** Short-circuit evaluation succeeds on the expression and on each of its subexpressions, evaluated on its own. */
  ghost predicate PyTotal<V(!new)>(h: Prims<V>, e: Expr<V>, context: map<string, V>)
    decreases e
  {
    PyEval(h, e, context).Success?
    && match e
       case Wrapped(body) => PyTotal(h, body, context)
       case Bool(_, operands) => forall x :: x in operands ==> PyTotal(h, x, context)
       case Unary(_, operand) => PyTotal(h, operand, context)
       case Compare(left, _, comparators) => PyTotal(h, left, context) && forall x :: x in comparators ==> PyTotal(h, x, context)
       case Subscript(base, index) => PyTotal(h, base, context) && PyTotal(h, index, context)
       case Bin(_, lhs, rhs) => PyTotal(h, lhs, context) && PyTotal(h, rhs, context)
       case ListOf(elements) => forall x :: x in elements ==> PyTotal(h, x, context)
       case TupleOf(elements) => forall x :: x in elements ==> PyTotal(h, x, context)
       case DictOf(entries) =>
         forall x :: x in entries ==> x.Pair? ==> PyTotal(h, x.key, context) && PyTotal(h, x.item, context)
       case _ => true
  }

  lemma {:induction false} ValueIsTruth<V>(e: Expr<V>)
    requires ValuePosition(e)
    ensures TruthPosition(e)
    decreases e
  {
    match e
    case Wrapped(body) => ValueIsTruth(body);
    case Bool(_, operands) =>
      forall x | x in operands ensures TruthPosition(x) { ValueIsTruth(x); }
    case _ =>
  }

  /** A subexpression whose value is used: it succeeds with the short-circuit value. */
  lemma ValueSucceeds<V(!new)>(h: Prims<V>, e: Expr<V>, context: map<string, V>)
    requires Lawful(h) && ValuePosition(e) && Supported(e) && PyTotal(h, e, context)
    ensures Eval(h, e, context).Success? && Eval(h, e, context) == PyEval(h, e, context)
    decreases e, 1
  {
    ValueIsTruth(e);
    EagerSucceeds(h, e, context);
    ValueAgrees(h, e, context);
  }

  lemma {:induction false} EagerSucceeds<V(!new)>(h: Prims<V>, e: Expr<V>, context: map<string, V>)
    requires Lawful(h) && TruthPosition(e) && Supported(e) && PyTotal(h, e, context)
    ensures Eval(h, e, context).Success?
    decreases e, 0
  {
    match e
    case Const(_) =>
    case Name(_) =>
    case Wrapped(body) => EagerSucceeds(h, body, context);
    case Bool(_, operands) => AllSucceed(h, operands, context);
    case Unary(_, operand) => EagerSucceeds(h, operand, context);
    case Compare(left, ops, comparators) =>
      ValueSucceeds(h, left, context);
      ChainSucceeds(h, Eval(h, left, context).value, ops, comparators, context, true);
    case Subscript(base, index) =>
      ValueSucceeds(h, base, context);
      ValueSucceeds(h, index, context);
    case Bin(_, lhs, rhs) =>
      ValueSucceeds(h, lhs, context);
      ValueSucceeds(h, rhs, context);
    case ListOf(elements) =>
      forall x | x in elements ensures TruthPosition(x) { ValueIsTruth(x); }
      AllSucceed(h, elements, context);
    case TupleOf(elements) =>
      forall x | x in elements ensures TruthPosition(x) { ValueIsTruth(x); }
      AllSucceed(h, elements, context);
    case DictOf(entries) => EntriesSucceed(h, h.emptyDict, entries, context);
  }

  lemma {:induction false} AllSucceed<V(!new)>(h: Prims<V>, es: seq<Expr<V>>, context: map<string, V>)
    requires Lawful(h) && forall x :: x in es ==> TruthPosition(x) && Supported(x) && PyTotal(h, x, context)
    ensures EvalAll(h, es, context).Success?
    decreases es
  {
    if es != [] {
      EagerSucceeds(h, es[0], context);
      AllSucceed(h, es[1..], context);
    }
  }

  lemma {:induction false} ChainSucceeds<V(!new)>(
    h: Prims<V>, left: V, ops: seq<CmpOp>, es: seq<Expr<V>>, context: map<string, V>, result: bool)
    requires Lawful(h) && |ops| == |es| && (forall op :: op in ops ==> !op.OtherCmp?)
    requires forall x :: x in es ==> ValuePosition(x) && Supported(x) && PyTotal(h, x, context)
    requires result ==> PyChain(h, left, ops, es, context).Success?
    ensures EvalChain(h, left, ops, es, context, result).Success?
    decreases es
  {
    if es != [] {
      ValueSucceeds(h, es[0], context);
      var right := Eval(h, es[0], context).value;
      assert ops[0] in ops;
      ChainSucceeds(h, right, ops[1..], es[1..], context, result && h.compare(ops[0], left, right).value);
    }
  }

  lemma {:induction false} EntriesSucceed<V(!new)>(h: Prims<V>, dict: V, entries: seq<Expr<V>>, context: map<string, V>)
    requires Lawful(h) && PyEntries(h, dict, entries, context).Success?
    requires forall x :: x in entries ==> x.Pair? && ValuePosition(x)
    requires forall x :: x in entries ==> Supported(x.key) && Supported(x.item) && PyTotal(h, x.key, context) && PyTotal(h, x.item, context)
    ensures EvalEntries(h, dict, entries, context).Success?
    decreases entries
  {
    if entries != [] {
      assert entries[0] in entries;
      EntrySucceeds(h, entries[0], context);
      EntriesSucceed(h, EvalEntry(h, dict, entries[0], context).value, entries[1..], context);
    }
  }

  lemma EntrySucceeds<V(!new)>(h: Prims<V>, entry: Expr<V>, context: map<string, V>)
    requires Lawful(h) && entry.Pair? && ValuePosition(entry) && Supported(entry.key) && Supported(entry.item)
    requires PyTotal(h, entry.key, context) && PyTotal(h, entry.item, context)
    ensures Eval(h, entry.key, context).Success? && Eval(h, entry.key, context) == PyEval(h, entry.key, context)
    ensures Eval(h, entry.item, context).Success? && Eval(h, entry.item, context) == PyEval(h, entry.item, context)
    decreases entry
  {
    ValueSucceeds(h, entry.key, context);
    ValueSucceeds(h, entry.item, context);
  }

  /** Success leaves nothing out: every construct is a known one and every subexpression has a short-circuit value. */
  lemma {:induction false} SuccessIsTotal<V(!new)>(h: Prims<V>, e: Expr<V>, context: map<string, V>)
    requires Lawful(h) && TruthPosition(e) && Eval(h, e, context).Success?
    ensures Supported(e) && PyTotal(h, e, context)
    decreases e, 0
  {
    TruthAgrees(h, e, context);
    match e
    case Const(_) =>
    case Name(_) =>
    case Wrapped(body) => SuccessIsTotal(h, body, context);
    case Bool(_, operands) => AllTotal(h, operands, context);
    case Unary(_, operand) => SuccessIsTotal(h, operand, context);
    case Compare(left, ops, comparators) =>
      ValueTotal(h, left, context);
      ChainTotal(h, Eval(h, left, context).value, ops, comparators, context, true);
    case Subscript(base, index) =>
      ValueTotal(h, base, context);
      ValueTotal(h, index, context);
    case Bin(_, lhs, rhs) =>
      ValueTotal(h, lhs, context);
      ValueTotal(h, rhs, context);
    case ListOf(elements) =>
      forall x | x in elements ensures TruthPosition(x) { ValueIsTruth(x); }
      AllTotal(h, elements, context);
    case TupleOf(elements) =>
      forall x | x in elements ensures TruthPosition(x) { ValueIsTruth(x); }
      AllTotal(h, elements, context);
    case DictOf(entries) => EntriesTotal(h, h.emptyDict, entries, context);
  }

  lemma ValueTotal<V(!new)>(h: Prims<V>, e: Expr<V>, context: map<string, V>)
    requires Lawful(h) && ValuePosition(e) && Eval(h, e, context).Success?
    ensures Supported(e) && PyTotal(h, e, context)
    decreases e, 1
  {
    ValueIsTruth(e);
    SuccessIsTotal(h, e, context);
  }

  lemma {:induction false} AllTotal<V(!new)>(h: Prims<V>, es: seq<Expr<V>>, context: map<string, V>)
    requires Lawful(h) && (forall x :: x in es ==> TruthPosition(x)) && EvalAll(h, es, context).Success?
    ensures forall x :: x in es ==> Supported(x) && PyTotal(h, x, context)
    decreases es
  {
    if es != [] {
      SuccessIsTotal(h, es[0], context);
      AllTotal(h, es[1..], context);
    }
  }

  lemma {:induction false} ChainTotal<V(!new)>(
    h: Prims<V>, left: V, ops: seq<CmpOp>, es: seq<Expr<V>>, context: map<string, V>, result: bool)
    requires Lawful(h) && (forall x :: x in es ==> ValuePosition(x)) && EvalChain(h, left, ops, es, context, result).Success?
    ensures |ops| == |es| && (forall op :: op in ops ==> !op.OtherCmp?)
    ensures forall x :: x in es ==> Supported(x) && PyTotal(h, x, context)
    decreases es
  {
    if es != [] {
      ValueTotal(h, es[0], context);
      var right := Eval(h, es[0], context).value;
      var b := if result then h.compare(ops[0], left, right) else Success(false);
      ChainTotal(h, right, ops[1..], es[1..], context, b.value);
    }
  }

  lemma {:induction false} EntriesTotal<V(!new)>(h: Prims<V>, dict: V, entries: seq<Expr<V>>, context: map<string, V>)
    requires Lawful(h) && (forall x :: x in entries ==> ValuePosition(x)) && EvalEntries(h, dict, entries, context).Success?
    ensures forall x :: x in entries ==> x.Pair? && Supported(x.key) && Supported(x.item)
    ensures forall x :: x in entries && x.Pair? ==> PyTotal(h, x.key, context) && PyTotal(h, x.item, context)
    decreases entries
  {
    if entries != [] {
      assert ValuePosition(entries[0]);
      EntryTotal(h, entries[0], context);
      EntriesTotal(h, EvalEntry(h, dict, entries[0], context).value, entries[1..], context);
    }
  }

  lemma EntryTotal<V(!new)>(h: Prims<V>, entry: Expr<V>, context: map<string, V>)
    requires Lawful(h) && entry.Pair? && ValuePosition(entry)
    requires Eval(h, entry.key, context).Success? && Eval(h, entry.item, context).Success?
    ensures Supported(entry.key) && Supported(entry.item) && PyTotal(h, entry.key, context) && PyTotal(h, entry.item, context)
    decreases entry
  {
    ValueTotal(h, entry.key, context);
    ValueTotal(h, entry.item, context);
  }

  /**
   * Where `and` and `or` stand in truth positions: the eager evaluator returns a value if and only if all constructs are
   * supported and short-circuit evaluation succeeds on every subexpression; and then the truth is the same.
   */
  lemma EagerSucceedsIff<V(!new)>(h: Prims<V>, e: Expr<V>, context: map<string, V>)
    requires Lawful(h) && TruthPosition(e)
    ensures Eval(h, e, context).Success? <==> Supported(e) && PyTotal(h, e, context)
    ensures Eval(h, e, context).Success? ==> h.truthy(Eval(h, e, context).value) == h.truthy(PyEval(h, e, context).value)
  {
    if Supported(e) && PyTotal(h, e, context) { EagerSucceeds(h, e, context); }
    if Eval(h, e, context).Success? {
      SuccessIsTotal(h, e, context);
      TruthAgrees(h, e, context);
    }
  }

  // ---------- what the eager evaluator means everywhere ----------

  /** The expression with every operand of `and` and `or` turned into a boolean by a double `not`. */
  function Coerced<V>(e: Expr<V>): Expr<V>
    decreases e, 1
  {
    match e
    case Wrapped(body) => Wrapped(Coerced(body))
    case Bool(op, operands) => Bool(op, CoercedBools(operands))
    case Unary(op, operand) => Unary(op, Coerced(operand))
    case Compare(left, ops, comparators) => Compare(Coerced(left), ops, CoercedAll(comparators))
    case Subscript(base, index) => Subscript(Coerced(base), Coerced(index))
    case Bin(op, lhs, rhs) => Bin(op, Coerced(lhs), Coerced(rhs))
    case ListOf(elements) => ListOf(CoercedAll(elements))
    case TupleOf(elements) => TupleOf(CoercedAll(elements))
    case DictOf(entries) => DictOf(CoercedAll(entries))
    case Pair(key, item) => Pair(Coerced(key), Coerced(item))
    case _ => e
  }

  function CoercedAll<V>(es: seq<Expr<V>>): seq<Expr<V>>
    decreases es, 0
  {
    if es == [] then [] else [Coerced(es[0])] + CoercedAll(es[1..])
  }

  function CoercedBools<V>(es: seq<Expr<V>>): seq<Expr<V>>
    decreases es, 0
  {
    if es == [] then [] else [Unary(Not, Unary(Not, Coerced(es[0])))] + CoercedBools(es[1..])
  }

  /** As parsed: `and` and `or` have operands. */
  ghost predicate HasOperands<V>(e: Expr<V>)
    decreases e
  {
    match e
    case Wrapped(body) => HasOperands(body)
    case Bool(_, operands) => operands != [] && forall x :: x in operands ==> HasOperands(x)
    case Unary(_, operand) => HasOperands(operand)
    case Compare(left, _, comparators) => HasOperands(left) && forall x :: x in comparators ==> HasOperands(x)
    case Subscript(base, index) => HasOperands(base) && HasOperands(index)
    case Bin(_, lhs, rhs) => HasOperands(lhs) && HasOperands(rhs)
    case ListOf(elements) => forall x :: x in elements ==> HasOperands(x)
    case TupleOf(elements) => forall x :: x in elements ==> HasOperands(x)
    case DictOf(entries) => forall x :: x in entries ==> HasOperands(x)
    case Pair(key, item) => HasOperands(key) && HasOperands(item)
    case _ => true
  }

  lemma {:induction false} CoercedInValuePosition<V>(e: Expr<V>)
    requires HasOperands(e)
    ensures ValuePosition(Coerced(e))
    decreases e, 1
  {
    match e
    case Wrapped(body) => CoercedInValuePosition(body);
    case Bool(_, operands) => CoercedBoolsInPosition(operands);
    case Unary(_, operand) =>
      CoercedInValuePosition(operand);
      ValueIsTruth(Coerced(operand));
    case Compare(left, _, comparators) =>
      CoercedInValuePosition(left);
      CoercedAllInPosition(comparators);
    case Subscript(base, index) =>
      CoercedInValuePosition(base);
      CoercedInValuePosition(index);
    case Bin(_, lhs, rhs) =>
      CoercedInValuePosition(lhs);
      CoercedInValuePosition(rhs);
    case ListOf(elements) => CoercedAllInPosition(elements);
    case TupleOf(elements) => CoercedAllInPosition(elements);
    case DictOf(entries) => CoercedAllInPosition(entries);
    case Pair(key, item) =>
      CoercedInValuePosition(key);
      CoercedInValuePosition(item);
    case _ =>
  }

  lemma {:induction false} CoercedAllInPosition<V>(es: seq<Expr<V>>)
    requires forall x :: x in es ==> HasOperands(x)
    ensures forall x :: x in CoercedAll(es) ==> ValuePosition(x)
    decreases es, 0
  {
    if es != [] {
      CoercedInValuePosition(es[0]);
      CoercedAllInPosition(es[1..]);
    }
  }

  lemma {:induction false} CoercedBoolsInPosition<V>(es: seq<Expr<V>>)
    requires forall x :: x in es ==> HasOperands(x)
    ensures |CoercedBools(es)| == |es| && forall x :: x in CoercedBools(es) ==> BoolValued(x) && ValuePosition(x)
    decreases es, 0
  {
    if es != [] {
      CoercedInValuePosition(es[0]);
      DoubleNotInPosition(Coerced(es[0]));
      CoercedBoolsInPosition(es[1..]);
    }
  }

  lemma DoubleNotInPosition<V>(e: Expr<V>)
    requires ValuePosition(e)
    ensures BoolValued(Unary(Not, Unary(Not, e))) && ValuePosition(Unary(Not, Unary(Not, e)))
  {
    ValueIsTruth(e);
    assert ValuePosition(Unary(Not, e));
  }

  /** The eager evaluator does not see the difference: it takes the truth of operands anyway. */
  lemma {:induction false} CoercedSame<V(!new)>(h: Prims<V>, e: Expr<V>, context: map<string, V>)
    requires Lawful(h)
    ensures Eval(h, Coerced(e), context) == Eval(h, e, context)
    decreases e, 1
  {
    match e
    case Wrapped(body) => CoercedSame(h, body, context);
    case Bool(_, operands) => BoolsSame(h, operands, context);
    case Unary(_, operand) => CoercedSame(h, operand, context);
    case Compare(left, ops, comparators) =>
      CoercedSame(h, left, context);
      if Eval(h, left, context).Success? { ChainSame(h, Eval(h, left, context).value, ops, comparators, context, true); }
    case Subscript(base, index) =>
      CoercedSame(h, base, context);
      CoercedSame(h, index, context);
    case Bin(_, lhs, rhs) =>
      CoercedSame(h, lhs, context);
      CoercedSame(h, rhs, context);
    case ListOf(elements) => AllSame(h, elements, context);
    case TupleOf(elements) => AllSame(h, elements, context);
    case DictOf(entries) => EntriesSame(h, h.emptyDict, entries, context);
    case _ =>
  }

  lemma {:induction false} AllSame<V(!new)>(h: Prims<V>, es: seq<Expr<V>>, context: map<string, V>)
    requires Lawful(h)
    ensures EvalAll(h, CoercedAll(es), context) == EvalAll(h, es, context)
    decreases es, 0
  {
    if es != [] {
      CoercedSame(h, es[0], context);
      AllSame(h, es[1..], context);
      assert CoercedAll(es)[0] == Coerced(es[0]) && CoercedAll(es)[1..] == CoercedAll(es[1..]);
    }
  }

  /** The same outcome up to the truth of the values. */
  ghost predicate SameTruths<V>(h: Prims<V>, r: Result<seq<V>, Error>, r': Result<seq<V>, Error>) {
    if r.Success? then r'.Success? && Truths(h, r.value) == Truths(h, r'.value) else r' == r
  }

  lemma SameTruthsCons<V>(h: Prims<V>, v: V, r: Result<seq<V>, Error>, v': V, r': Result<seq<V>, Error>)
    requires h.truthy(v) == h.truthy(v') && SameTruths(h, r, r') && r.Success?
    ensures SameTruths(h, Success([v] + r.value), Success([v'] + r'.value))
  {
    TruthsCons(h, v, r.value);
    TruthsCons(h, v', r'.value);
  }

  lemma {:induction false} BoolsSame<V(!new)>(h: Prims<V>, es: seq<Expr<V>>, context: map<string, V>)
    requires Lawful(h)
    ensures SameTruths(h, EvalAll(h, es, context), EvalAll(h, CoercedBools(es), context))
    decreases es, 0
  {
    if es != [] {
      var first := Unary(Not, Unary(Not, Coerced(es[0])));
      CoercedSame(h, es[0], context);
      BoolsSame(h, es[1..], context);
      assert CoercedBools(es)[0] == first && CoercedBools(es)[1..] == CoercedBools(es[1..]);
      var v, rest := Eval(h, es[0], context), EvalAll(h, es[1..], context);
      DoubleNot(h, Coerced(es[0]), context);
      if v.Success? && rest.Success? {
        SameTruthsCons(h, v.value, rest, Eval(h, first, context).value, EvalAll(h, CoercedBools(es[1..]), context));
      }
    }
  }

  lemma DoubleNot<V(!new)>(h: Prims<V>, e: Expr<V>, context: map<string, V>)
    requires Lawful(h)
    ensures var v, r := Eval(h, e, context), Eval(h, Unary(Not, Unary(Not, e)), context);
            if v.Success? then r.Success? && h.truthy(r.value) == h.truthy(v.value) else r == v
  {
    assert Eval(h, Unary(Not, e), context)
        == if Eval(h, e, context).Success? then Success(h.ofBool(!h.truthy(Eval(h, e, context).value))) else Eval(h, e, context);
  }

  lemma {:induction false} ChainSame<V(!new)>(
    h: Prims<V>, left: V, ops: seq<CmpOp>, es: seq<Expr<V>>, context: map<string, V>, result: bool)
    requires Lawful(h)
    ensures EvalChain(h, left, ops, CoercedAll(es), context, result) == EvalChain(h, left, ops, es, context, result)
    decreases es, 0
  {
    if es != [] && ops != [] {
      CoercedSame(h, es[0], context);
      assert CoercedAll(es)[0] == Coerced(es[0]) && CoercedAll(es)[1..] == CoercedAll(es[1..]);
      var right := Eval(h, es[0], context);
      if right.Success? {
        var b := if result then h.compare(ops[0], left, right.value) else Success(false);
        if b.Success? { ChainSame(h, right.value, ops[1..], es[1..], context, b.value); }
      }
    }
  }

  lemma {:induction false} EntriesSame<V(!new)>(h: Prims<V>, dict: V, entries: seq<Expr<V>>, context: map<string, V>)
    requires Lawful(h)
    ensures EvalEntries(h, dict, CoercedAll(entries), context) == EvalEntries(h, dict, entries, context)
    decreases entries, 0
  {
    if entries != [] {
      EntrySame(h, dict, entries[0], context);
      assert CoercedAll(entries)[0] == Coerced(entries[0]) && CoercedAll(entries)[1..] == CoercedAll(entries[1..]);
      var d := EvalEntry(h, dict, entries[0], context);
      if d.Success? { EntriesSame(h, d.value, entries[1..], context); }
    }
  }

  lemma EntrySame<V(!new)>(h: Prims<V>, dict: V, entry: Expr<V>, context: map<string, V>)
    requires Lawful(h)
    ensures EvalEntry(h, dict, Coerced(entry), context) == EvalEntry(h, dict, entry, context)
    decreases entry, 1
  {
    match entry
    case Pair(key, item) =>
      CoercedSame(h, item, context);
      CoercedSame(h, key, context);
    case _ =>
  }

  /**
   * For every expression, wherever `and` and `or` stand: the eager evaluator computes the short-circuit value of the
   * expression with boolean operands, and it has a value if and only if every part of that expression has one.
   */
  lemma EagerMeansCoerced<V(!new)>(h: Prims<V>, e: Expr<V>, context: map<string, V>)
    requires Lawful(h) && HasOperands(e)
    ensures Eval(h, e, context).Success? <==> Supported(Coerced(e)) && PyTotal(h, Coerced(e), context)
    ensures Eval(h, e, context).Success? ==> Eval(h, e, context) == PyEval(h, Coerced(e), context)
  {
    CoercedSame(h, e, context);
    CoercedInValuePosition(e);
    ValueIsTruth(Coerced(e));
    EagerSucceedsIff(h, Coerced(e), context);
    if Eval(h, e, context).Success? { ValueAgrees(h, Coerced(e), context); }
  }

  // ---------- evaluation depends on the names that occur, and on nothing else ----------

  ghost function Names<V>(e: Expr<V>): set<string>
    decreases e, 1
  {
    match e
    case Const(_) => {}
    case Name(id) => {id}
    case Wrapped(body) => Names(body)
    case Bool(_, operands) => NamesOfAll(operands)
    case Unary(_, operand) => Names(operand)
    case Compare(left, _, comparators) => Names(left) + NamesOfAll(comparators)
    case Subscript(base, index) => Names(base) + Names(index)
    case Bin(_, lhs, rhs) => Names(lhs) + Names(rhs)
    case ListOf(elements) => NamesOfAll(elements)
    case TupleOf(elements) => NamesOfAll(elements)
    case DictOf(entries) => NamesOfAll(entries)
    case Pair(key, item) => Names(key) + Names(item)
    case Unpack(item) => Names(item)
    case Other(_) => {}
  }

  ghost function NamesOfAll<V>(es: seq<Expr<V>>): set<string>
    decreases es, 0
  {
    if es == [] then {} else Names(es[0]) + NamesOfAll(es[1..])
  }

  ghost predicate AgreeOn<V>(a: map<string, V>, b: map<string, V>, names: set<string>) {
    forall n :: n in names ==> (n in a <==> n in b) && (n in a ==> a[n] == b[n])
  }

  lemma {:induction false} EvalDependsOnNames<V>(h: Prims<V>, e: Expr<V>, a: map<string, V>, b: map<string, V>)
    requires AgreeOn(a, b, Names(e))
    ensures Eval(h, e, a) == Eval(h, e, b)
    decreases e, 1
  {
    match e
    case Const(_) =>
    case Name(id) => assert id in Names(e);
    case Wrapped(body) => EvalDependsOnNames(h, body, a, b);
    case Bool(_, operands) => AllDependOnNames(h, operands, a, b);
    case Unary(_, operand) => EvalDependsOnNames(h, operand, a, b);
    case Compare(left, ops, comparators) =>
      EvalDependsOnNames(h, left, a, b);
      if Eval(h, left, a).Success? { ChainDependsOnNames(h, Eval(h, left, a).value, ops, comparators, a, b, true); }
    case Subscript(base, index) =>
      EvalDependsOnNames(h, base, a, b);
      EvalDependsOnNames(h, index, a, b);
    case Bin(_, lhs, rhs) =>
      EvalDependsOnNames(h, lhs, a, b);
      EvalDependsOnNames(h, rhs, a, b);
    case ListOf(elements) => AllDependOnNames(h, elements, a, b);
    case TupleOf(elements) => AllDependOnNames(h, elements, a, b);
    case DictOf(entries) => EntriesDependOnNames(h, h.emptyDict, entries, a, b);
    case _ =>
  }

  lemma {:induction false} AllDependOnNames<V>(h: Prims<V>, es: seq<Expr<V>>, a: map<string, V>, b: map<string, V>)
    requires AgreeOn(a, b, NamesOfAll(es))
    ensures EvalAll(h, es, a) == EvalAll(h, es, b)
    decreases es, 0
  {
    if es != [] {
      EvalDependsOnNames(h, es[0], a, b);
      AllDependOnNames(h, es[1..], a, b);
    }
  }

  lemma {:induction false} ChainDependsOnNames<V>(
    h: Prims<V>, left: V, ops: seq<CmpOp>, comparators: seq<Expr<V>>, a: map<string, V>, b: map<string, V>, result: bool)
    requires AgreeOn(a, b, NamesOfAll(comparators))
    ensures EvalChain(h, left, ops, comparators, a, result) == EvalChain(h, left, ops, comparators, b, result)
    decreases comparators, 0
  {
    if ops != [] && comparators != [] {
      EvalDependsOnNames(h, comparators[0], a, b);
      var r := Eval(h, comparators[0], a);
      if r.Success? {
        var c := if result then h.compare(ops[0], left, r.value) else Success(false);
        if c.Success? { ChainDependsOnNames(h, r.value, ops[1..], comparators[1..], a, b, c.value); }
      }
    }
  }

  lemma {:induction false} EntriesDependOnNames<V>(h: Prims<V>, dict: V, entries: seq<Expr<V>>, a: map<string, V>, b: map<string, V>)
    requires AgreeOn(a, b, NamesOfAll(entries))
    ensures EvalEntries(h, dict, entries, a) == EvalEntries(h, dict, entries, b)
    decreases entries, 0
  {
    if entries != [] {
      EntryDependsOnNames(h, dict, entries[0], a, b);
      var d := EvalEntry(h, dict, entries[0], a);
      if d.Success? { EntriesDependOnNames(h, d.value, entries[1..], a, b); }
    }
  }

  lemma {:induction false} EntryDependsOnNames<V>(h: Prims<V>, dict: V, entry: Expr<V>, a: map<string, V>, b: map<string, V>)
    requires AgreeOn(a, b, Names(entry))
    ensures EvalEntry(h, dict, entry, a) == EvalEntry(h, dict, entry, b)
    decreases entry, 1
  {
    match entry
    case Pair(key, item) =>
      EvalDependsOnNames(h, item, a, b);
      EvalDependsOnNames(h, key, a, b);
    case _ =>
  }

  /** The eager evaluator reads every name of an expression: one unknown name anywhere makes it raise. */
  lemma {:induction false} SuccessKnowsAllNames<V>(h: Prims<V>, e: Expr<V>, context: map<string, V>)
    requires Eval(h, e, context).Success?
    ensures Names(e) <= context.Keys
    decreases e, 1
  {
    match e
    case Const(_) =>
    case Name(id) =>
    case Wrapped(body) => SuccessKnowsAllNames(h, body, context);
    case Bool(_, operands) => AllKnown(h, operands, context);
    case Unary(_, operand) => SuccessKnowsAllNames(h, operand, context);
    case Compare(left, ops, comparators) =>
      SuccessKnowsAllNames(h, left, context);
      ChainKnown(h, Eval(h, left, context).value, ops, comparators, context, true);
    case Subscript(base, index) =>
      SuccessKnowsAllNames(h, base, context);
      SuccessKnowsAllNames(h, index, context);
    case Bin(_, lhs, rhs) =>
      SuccessKnowsAllNames(h, lhs, context);
      SuccessKnowsAllNames(h, rhs, context);
    case ListOf(elements) => AllKnown(h, elements, context);
    case TupleOf(elements) => AllKnown(h, elements, context);
    case DictOf(entries) => EntriesKnown(h, h.emptyDict, entries, context);
    case _ =>
  }

  lemma {:induction false} AllKnown<V>(h: Prims<V>, es: seq<Expr<V>>, context: map<string, V>)
    requires EvalAll(h, es, context).Success?
    ensures NamesOfAll(es) <= context.Keys
    decreases es, 0
  {
    if es != [] {
      SuccessKnowsAllNames(h, es[0], context);
      AllKnown(h, es[1..], context);
    }
  }

  lemma {:induction false} ChainKnown<V>(h: Prims<V>, left: V, ops: seq<CmpOp>, es: seq<Expr<V>>, context: map<string, V>, result: bool)
    requires EvalChain(h, left, ops, es, context, result).Success?
    ensures NamesOfAll(es) <= context.Keys
    decreases es, 0
  {
    if es != [] {
      SuccessKnowsAllNames(h, es[0], context);
      var right := Eval(h, es[0], context).value;
      var b := if result then h.compare(ops[0], left, right) else Success(false);
      ChainKnown(h, right, ops[1..], es[1..], context, b.value);
    }
  }

  lemma {:induction false} EntriesKnown<V>(h: Prims<V>, dict: V, entries: seq<Expr<V>>, context: map<string, V>)
    requires EvalEntries(h, dict, entries, context).Success?
    ensures NamesOfAll(entries) <= context.Keys
    decreases entries, 0
  {
    if entries != [] {
      EntryKnown(h, dict, entries[0], context);
      EntriesKnown(h, EvalEntry(h, dict, entries[0], context).value, entries[1..], context);
    }
  }

  lemma {:induction false} EntryKnown<V>(h: Prims<V>, dict: V, entry: Expr<V>, context: map<string, V>)
    requires EvalEntry(h, dict, entry, context).Success?
    ensures Names(entry) <= context.Keys
    decreases entry, 1
  {
    match entry
    case Pair(key, item) =>
      SuccessKnowsAllNames(h, item, context);
      SuccessKnowsAllNames(h, key, context);
    case _ =>
  }

  // ---------- the limits of the agreement ----------

  /** Operand `k` decides: the ones before it do not, and it does or is the last. */
  predicate Decides<V>(h: Prims<V>, op: BoolOp, operands: seq<Expr<V>>, context: map<string, V>, k: nat) {
    && k < |operands|
    && (forall j :: 0 <= j < k ==> var v := PyEval(h, operands[j], context); v.Success? && h.truthy(v.value) != op.Or?)
    && var v := PyEval(h, operands[k], context); v.Success? && (k == |operands| - 1 || h.truthy(v.value) == op.Or?)
  }

  lemma {:induction false} DecidingOperandIsResult<V>(h: Prims<V>, op: BoolOp, operands: seq<Expr<V>>, context: map<string, V>, k: nat)
    requires Decides(h, op, operands, context, k)
    ensures PyBool(h, op, operands, context) == PyEval(h, operands[k], context)
    decreases k
  {
    if k > 0 {
      var rest := operands[1..];
      assert forall j :: 0 < j < |operands| ==> operands[j] == rest[j - 1];
      assert PyEval(h, operands[0], context).Success?;
      DecidingOperandIsResult(h, op, rest, context, k - 1);
    }
  }

  /** When the eager evaluator returns a value, some operand decides. */
  lemma {:induction false} SomeOperandDecides<V(!new)>(h: Prims<V>, op: BoolOp, operands: seq<Expr<V>>, context: map<string, V>)
    returns (k: nat)
    requires Lawful(h) && TruthPosition(Bool(op, operands)) && EvalAll(h, operands, context).Success?
    ensures Decides(h, op, operands, context, k)
    decreases |operands|
  {
    TruthAgrees(h, operands[0], context);
    if |operands| == 1 || h.truthy(PyEval(h, operands[0], context).value) == op.Or? { return 0; }
    var rest := operands[1..];
    assert forall x :: x in rest ==> x in operands;
    k := SomeOperandDecides(h, op, rest, context);
    assert forall j :: 0 < j < |operands| ==> operands[j] == rest[j - 1];
    k := k + 1;
  }

  /** Where a value is used, `and` and `or` agree exactly when the value of the operand that decides is itself a boolean. */
  lemma BoolInValuePositionIff<V(!new)>(h: Prims<V>, op: BoolOp, operands: seq<Expr<V>>, context: map<string, V>, k: nat)
    requires Lawful(h) && TruthPosition(Bool(op, operands)) && Eval(h, Bool(op, operands), context).Success?
    requires Decides(h, op, operands, context, k)
    ensures Eval(h, Bool(op, operands), context) == PyEval(h, Bool(op, operands), context)
            <==> var v := PyEval(h, operands[k], context).value; v == h.ofBool(h.truthy(v))
  {
    DecidingOperandIsResult(h, op, operands, context, k);
    TruthAgrees(h, Bool(op, operands), context);
    var b := Combine(op, Truths(h, EvalAll(h, operands, context).value));
    assert Eval(h, Bool(op, operands), context) == Success(h.ofBool(b)) && h.truthy(h.ofBool(b)) == b;
  }

  lemma EvalTwo<V>(h: Prims<V>, a: Expr<V>, b: Expr<V>, context: map<string, V>)
    ensures var l, r := Eval(h, a, context), Eval(h, b, context);
            EvalAll(h, [a, b], context)
            == if l.Failure? then Failure(l.error) else if r.Failure? then Failure(r.error) else Success([l.value, r.value])
  {
    assert [a, b][1..] == [b] && [b][1..] == [];
    assert EvalAll(h, [], context) == Success([]);
    if Eval(h, b, context).Success? {
      assert [Eval(h, b, context).value] + [] == [Eval(h, b, context).value];
      assert EvalAll(h, [b], context) == Success([Eval(h, b, context).value]);
      if Eval(h, a, context).Success? {
        var l, r := Eval(h, a, context).value, Eval(h, b, context).value;
        assert [l] + [r] == [l, r];
      }
    }
  }

  lemma PyTwo<V>(h: Prims<V>, op: BoolOp, a: Expr<V>, b: Expr<V>, context: map<string, V>)
    ensures var l := PyEval(h, a, context);
            PyBool(h, op, [a, b], context)
            == if l.Failure? || h.truthy(l.value) == op.Or? then l else PyEval(h, b, context)
  {
    assert [a, b][1..] == [b];
    assert PyBool(h, op, [b], context) == PyEval(h, b, context);
  }

  /** `(z or v) == v` with a false z and a true v that is not `True`: the eager answer is the opposite one. */
  lemma OperandValueLost<V(!new)>(h: Prims<V>, z: V, v: V)
    requires Lawful(h) && !h.truthy(z) && h.truthy(v)
    requires h.compare(Eq, v, v) == Success(true) && h.compare(Eq, h.ofBool(true), v) == Success(false)
    ensures var e := Compare(Bool(Or, [Const(z), Const(v)]), [Eq], [Const(v)]);
            Eval(h, e, map[]) == Success(h.ofBool(false)) && PyEval(h, e, map[]) == Success(h.ofBool(true))
  {
    var either := Bool(Or, [Const(z), Const(v)]);
    EvalTwo(h, Const(z), Const(v), map[]);
    PyTwo(h, Or, Const(z), Const(v), map[]);
    assert Truths(h, [z, v])[1];
    assert Eval(h, either, map[]) == Success(h.ofBool(true)) && PyEval(h, either, map[]) == Success(v);
    assert [Eq][1..] == [];
    assert EvalChain(h, h.ofBool(true), [Eq], [Const(v)], map[], true) == Success(false);
    assert PyChain(h, v, [Eq], [Const(v)], map[]) == Success(true);
  }

  /** The guard idiom `x and x[k]`: short-circuit evaluation answers, the eager evaluator raises. */
  lemma GuardIdiomRaises<V>(h: Prims<V>, x: string, k: V, context: map<string, V>)
    requires x in context && !h.truthy(context[x]) && h.getItem(context[x], k).Failure?
    ensures var e := Bool(And, [Name(x), Subscript(Name(x), Const(k))]);
            Eval(h, e, context).Failure? && PyEval(h, e, context) == Success(context[x])
  {
    EvalTwo(h, Name(x), Subscript(Name(x), Const(k)), context);
    PyTwo(h, And, Name(x), Subscript(Name(x), Const(k)), context);
    assert Eval(h, Subscript(Name(x), Const(k)), context).Failure?;
  }
}
