/** How far an engine has got: the invariant of both engines' main loops. */
module Progress {
  import opened CTypes
  import opened Format
  import opened Parsing

  /** The engine has still to render todo from the arguments args, has written out, and has asked
      va_arg for asked. */
  datatype State = State(todo: seq<Item>, args: seq<Arg>, out: seq<char>, asked: seq<ArgType>)

  ghost predicate Prepared(st: State) {
    Matches(st.todo, st.args)
  }

  /** The output there will be in the end. */
  ghost function Whole(engine: Engine, st: State): seq<char>
    requires Prepared(st)
  {
    st.out + Text(engine, st.todo, st.args)
  }

  /** From start the engine has come to st: what is done and what is to come make up the same
      output and the same demand for arguments. */
  ghost predicate Reached(engine: Engine, start: State, st: State)
    requires Prepared(start)
  {
    && Prepared(st)
    && Whole(engine, st) == Whole(engine, start)
    && st.asked + Demand(st.todo) == start.asked + Demand(start.todo)
  }

  /** The state after one more item. */
  ghost function Next(engine: Engine, st: State): State
    requires st.todo != [] && ItemReady(st.todo[0], st.args)
  {
    var item := st.todo[0];
    State(st.todo[1..], After(item, st.args), st.out + Piece(engine, item, st.args), st.asked + DemandOf(item))
  }

  lemma NextWhole(engine: Engine, st: State)
    requires Prepared(st) && st.todo != []
    ensures ItemReady(st.todo[0], st.args) && Prepared(Next(engine, st))
    ensures Whole(engine, Next(engine, st)) == Whole(engine, st)
  {
    hide Piece, DemandOf;
    var item := st.todo[0];
    var rest := Text(engine, st.todo[1..], After(item, st.args));
    assert st.out + (Piece(engine, item, st.args) + rest) == (st.out + Piece(engine, item, st.args)) + rest;
  }

  lemma NextDemand(engine: Engine, st: State)
    requires Prepared(st) && st.todo != [] && ItemReady(st.todo[0], st.args)
    ensures Next(engine, st).asked + Demand(st.todo[1..]) == st.asked + Demand(st.todo)
  {
    hide Piece, DemandOf, Text, Matches;
    var item := st.todo[0];
    assert st.asked + (DemandOf(item) + Demand(st.todo[1..])) == (st.asked + DemandOf(item)) + Demand(st.todo[1..]);
  }

  /** One step of an engine's state, over the item at hand. */
  lemma Step(engine: Engine, start: State, st: State) returns (st': State)
    requires Prepared(start) && Reached(engine, start, st) && st.todo != []
    ensures Reached(engine, start, st') && st'.todo == st.todo[1..]
    ensures ItemReady(st.todo[0], st.args) && st'.out == st.out + Piece(engine, st.todo[0], st.args)
    ensures st'.args == After(st.todo[0], st.args) && st'.asked == st.asked + DemandOf(st.todo[0])
    ensures |st'.out| <= |Whole(engine, start)|
  {
    NextWhole(engine, st);
    NextDemand(engine, st);
    hide Matches, Text, Demand, Piece, DemandOf, ItemReady, After;
    st' := Next(engine, st);
  }

  lemma Finished(engine: Engine, start: State, st: State)
    requires Prepared(start) && Reached(engine, start, st) && st.todo == []
    ensures st.out == Whole(engine, start) && st.asked == start.asked + Demand(start.todo)
  {
  }

  // ----- The item at a position of the format -----

  /** The engine is at position i of the format. */
  ghost predicate Along(fmt: CString, i: nat, st: State) {
    i <= |fmt| && st.todo == Items(fmt, i) && WidthsFit(fmt, i)
  }

  predicate AtDirective(fmt: CString, i: nat) {
    i + 1 < |fmt| && fmt[i] == '%' && fmt[i + 1] != '%'
  }

  /** The engine stops at i, in one of the ways it can. */
  predicate AtEnd(fmt: CString, i: nat)
    requires i <= |fmt|
  {
    || i == |fmt|
    || (i + 1 == |fmt| && fmt[i] == '%')
    || (AtDirective(fmt, i) && SpecAt(fmt, i + 1) == |fmt|)
  }

  /** todo starts with item, and the rest is what the format holds from position next on. */
  ghost predicate Leads(todo: seq<Item>, item: Item, fmt: CString, next: nat) {
    && next <= |fmt| && WidthsFit(fmt, next)
    && todo != [] && todo[0] == item && todo[1..] == Items(fmt, next)
  }

  lemma OrdinaryItem(fmt: CString, i: nat)
    requires i < |fmt| && fmt[i] != '%' && WidthsFit(fmt, i)
    ensures Leads(Items(fmt, i), Literal(fmt[i]), fmt, i + 1)
  {
  }

  lemma PercentItem(fmt: CString, i: nat)
    requires i + 1 < |fmt| && fmt[i] == '%' == fmt[i + 1] && WidthsFit(fmt, i)
    ensures Leads(Items(fmt, i), Literal('%'), fmt, i + 2)
  {
  }

  lemma DirectiveWidth(fmt: CString, i: nat)
    requires AtDirective(fmt, i) && WidthsFit(fmt, i)
    ensures WidthAt(fmt, i + 1) <= INT_MAX
  {
  }

  lemma DirectiveItem(fmt: CString, i: nat, e: nat, d: Directive)
    requires AtDirective(fmt, i) && WidthsFit(fmt, i)
    requires e == SpecAt(fmt, i + 1) < |fmt| && d == DirectiveAt(fmt, i + 1)
    ensures Leads(Items(fmt, i), Conversion(d), fmt, e + 1)
  {
  }

  lemma NoItem(fmt: CString, i: nat)
    requires i <= |fmt| && AtEnd(fmt, i)
    ensures Items(fmt, i) == []
  {
  }
}
