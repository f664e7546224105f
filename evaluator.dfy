/**
 * `exec_with_return`: run a computed-field snippet against a binding map and return the value its
 * last statement denotes. Parsing, execution and evaluation are Python's own and are parameters
 * here (`Python`); what is modelled is which statements run and which expression is evaluated.
 */
module Evaluator {
  import opened Wrappers
  import opened Values

  /** Source text of a snippet or of one expression in it (what `ast.unparse` yields). */
  type Code = string

  /** The variable bindings a snippet runs in: the row's fields, as its globals. */
  type Bindings = map<string, Value>

  /** The kinds of top-level statement the last-statement rule tells apart. */
  datatype Stmt =
      /** An expression statement, `e`. */
    | ExprStmt(expr: Code)
      /** `t0 = t1 = ... = e`; Python's parser always gives at least one target. */
    | Assign(firstTarget: Code, moreTargets: seq<Code>, value: Code)
      /** `t: ann` or `t: ann = e`. */
    | AnnAssign(target: Code, annotation: Code, initial: Option<Code>)
      /** `t op= e`. */
    | AugAssign(target: Code, op: string, value: Code)
      /** Any other statement: `for`, `if`, `def`, `import`, ... */
    | OtherStmt(text: Code)

  /**
   * Python's parser, `exec` and `eval`, each failing with `None` where Python raises. `exec`
   * returns the bindings as the executed statements left them.
   */
  datatype Python = Python(
    parse: Code -> Option<seq<Stmt>>,
    exec: (seq<Stmt>, Bindings) -> Option<Bindings>,
    eval: (Code, Bindings) -> Option<Value>)

  /** What a statement denotes when it ends a snippet: its value, first target or target. */
  function Denotes(s: Stmt): Option<Code>
  {
    match s
    case ExprStmt(e) => Some(e)
    case Assign(t, _, _) => Some(t)
    case AnnAssign(t, _, _) => Some(t)
    case AugAssign(t, _, _) => Some(t)
    case OtherStmt(_) => None
  }

  /** The statements to execute and the expression to evaluate afterwards, if any. */
  datatype Plan = Plan(executed: seq<Stmt>, trailing: Option<Code>)

  /**
   * The last-statement rule. A trailing expression statement is popped, so it is evaluated once
   * and not executed; any other statement stays in the executed body. The expression evaluated
   * afterwards is what the last statement denotes, and there is none for an empty body.
   */
  function PlanOf(body: seq<Stmt>): (p: Plan)
    ensures body == [] ==> p.executed == [] && p.trailing == None
    ensures body != [] ==> p.trailing == Denotes(body[|body| - 1])
    ensures body != [] && body[|body| - 1].ExprStmt? ==>
              p.executed + [body[|body| - 1]] == body && |p.executed| == |body| - 1
    ensures body != [] && !body[|body| - 1].ExprStmt? ==> p.executed == body
  {
    if body == [] then Plan([], None)
    else
      var last := body[|body| - 1];
      match last
      case ExprStmt(e) => Plan(body[..|body| - 1], Some(e))
      case Assign(t, _, _) => Plan(body, Some(t))
      case AnnAssign(t, _, _) => Plan(body, Some(t))
      case AugAssign(t, _, _) => Plan(body, Some(t))
      case OtherStmt(_) => Plan(body, None)
  }

  /**
   * Nothing is lost or run twice: the executed statements followed by the popped expression
   * statement (when there is one) are exactly the parsed body.
   */
  lemma PlanPartitionsBody(body: seq<Stmt>)
    ensures var p := PlanOf(body);
            if body != [] && body[|body| - 1].ExprStmt?
            then p.executed + [ExprStmt(p.trailing.value)] == body
            else p.executed == body
  {
  }

  /**
   * `exec_with_return(code, location, globals)`: parse, execute the planned statements in
   * `globals`, then evaluate the trailing expression in the bindings execution left; Python's
   * `None` when there is none. Each failure is tagged with the snippet's `site`.
   */
  function ExecWithReturn(py: Python, code: Code, site: Site, globals: Bindings): (r: Result<Value, Error>)
    ensures r.Err? ==> r.error == Evaluation(site)
  {
    match py.parse(code)
    case None => Err(Evaluation(site))
    case Some(body) =>
      var plan := PlanOf(body);
      match py.exec(plan.executed, globals)
      case None => Err(Evaluation(site))
      case Some(after) =>
        match plan.trailing
        case None => Ok(NoneValue)
        case Some(e) =>
          match py.eval(e, after)
          case None => Err(Evaluation(site))
          case Some(v) => Ok(v)
  }

  /**
   * A snippet ending in an expression statement `e`: the statements before it run once, then `e`
   * is evaluated in the bindings they leave; `e` itself is not executed.
   */
  lemma TrailingExpression(py: Python, code: Code, site: Site, globals: Bindings, body: seq<Stmt>, e: Code)
    requires py.parse(code) == Some(body) && body != [] && body[|body| - 1] == ExprStmt(e)
    ensures var before := body[..|body| - 1];
            ExecWithReturn(py, code, site, globals) ==
              match py.exec(before, globals)
              case None => Err(Evaluation(site))
              case Some(after) =>
                match py.eval(e, after)
                case None => Err(Evaluation(site))
                case Some(v) => Ok(v)
  {
  }

  /**
   * A snippet ending in an assignment (plain, annotated or augmented): the whole body runs, then
   * the (first) target is evaluated in the bindings it leaves.
   */
  lemma TrailingAssignment(py: Python, code: Code, site: Site, globals: Bindings, body: seq<Stmt>)
    requires py.parse(code) == Some(body) && body != []
    requires var last := body[|body| - 1]; last.Assign? || last.AnnAssign? || last.AugAssign?
    ensures var last := body[|body| - 1];
            var target := if last.Assign? then last.firstTarget else last.target;
            ExecWithReturn(py, code, site, globals) ==
              match py.exec(body, globals)
              case None => Err(Evaluation(site))
              case Some(after) =>
                match py.eval(target, after)
                case None => Err(Evaluation(site))
                case Some(v) => Ok(v)
  {
  }

  /**
   * A snippet that is empty or ends in any other statement runs for its effects only and yields
   * Python's `None` when that succeeds; nothing is evaluated afterwards.
   */
  lemma NoTrailingValue(py: Python, code: Code, site: Site, globals: Bindings, body: seq<Stmt>)
    requires py.parse(code) == Some(body)
    requires body == [] || body[|body| - 1].OtherStmt?
    ensures ExecWithReturn(py, code, site, globals) ==
              if py.exec(body, globals).Some? then Ok(NoneValue) else Err(Evaluation(site))
  {
  }
}
