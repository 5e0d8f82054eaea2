/** `pkg/nuclide-debugger/lib/WatchExpressionListStore.js`: the debugger's
    list of watch expressions, each with its evaluation. The list is treated as
    immutable: every edit publishes a fresh copy. JavaScript array indices are
    numbers, so the edits are modelled for every integer index with the
    semantics of `splice` and of an indexed assignment. */
module WatchExpressionList {
  import opened Wrappers

  /** The largest array index: an assignment to a larger (or negative) index
      sets a plain property, which the list's `map` never visits. */
  const MaxArrayIndex: int := 0xFFFF_FFFE

  /** One element of the array: an expression with its evaluation, a hole
      left by assigning past the end, or `undefined`, which the spread in
      `_addWatchExpression` puts where a hole was. `V` is whatever
      `evaluateWatchExpression` returns (an observable of the value). */
  datatype Slot<V> = Hole | Undefined | Watched(expression: string, value: V)

  type WatchList<V> = seq<Slot<V>>

  /** `DebuggerMode`. */
  datatype DebuggerMode = Starting | Running | Paused | Stopping | Stopped

  /** The dispatcher actions the store reacts to; anything else is `Other`. */
  datatype Action =
    | AddWatchExpression(expression: string)
    | RemoveWatchExpression(index: int)
    | UpdateWatchExpression(index: int, newExpression: string)
    | DebuggerModeChange(mode: DebuggerMode)
    | Other

  /** The error a callback throws when it reads `expression` off `undefined`. */
  const TypeError := "TypeError"

  /** Every slot holds an expression. */
  predicate NoHoles<V>(l: WatchList<V>) {
    forall i :: 0 <= i < |l| ==> l[i].Watched?
  }

  /** Some slot is `undefined`: `map` visits it, and the callbacks that read
      its `expression` throw. */
  predicate HasUndefined<V>(l: WatchList<V>) {
    exists i :: 0 <= i < |l| && l[i].Undefined?
  }

  /** `_getExpressionEvaluationFor`. */
  function Evaluate<V>(expression: string, evaluate: string -> V): Slot<V> {
    Watched(expression, evaluate(expression))
  }

  /** `getSerializedWatchExpressions`: the expressions in order; `map` keeps a
      hole a hole, and throws on an `undefined` slot. */
  function Serialize<V>(l: WatchList<V>): (r: Result<seq<Option<string>>, string>)
    ensures r.Err? <==> HasUndefined(l)
    ensures r.Err? ==> r.error == TypeError
    ensures r.Ok? ==> |r.value| == |l|
    ensures r.Ok? ==> forall i :: 0 <= i < |l| ==> r.value[i] == if l[i].Watched? then Some(l[i].expression) else None
  {
    if HasUndefined(l) then Err(TypeError)
    else Ok(seq(|l|, i requires 0 <= i < |l| => if l[i].Watched? then Some(l[i].expression) else None))
  }

  /** `_deserializeWatchExpressions`: every saved expression evaluated anew. */
  function Deserialize<V>(saved: seq<string>, evaluate: string -> V): (l: WatchList<V>)
    ensures NoHoles(l) && |l| == |saved|
    ensures forall i :: 0 <= i < |l| ==> l[i] == Evaluate(saved[i], evaluate)
  {
    seq(|saved|, i requires 0 <= i < |saved| => Evaluate(saved[i], evaluate))
  }

  /** Restoring a saved list and saving it again gives the saved expressions
      back, in order. */
  lemma DeserializeThenSerialize<V>(saved: seq<string>, evaluate: string -> V)
    ensures Serialize(Deserialize(saved, evaluate)) == Ok(seq(|saved|, i requires 0 <= i < |saved| => Some(saved[i])))
  {
    var l := Deserialize(saved, evaluate);
    assert !HasUndefined(l) by {
      forall i | 0 <= i < |l| ensures !l[i].Undefined? {
      }
    }
    assert Serialize(l).value == seq(|saved|, i requires 0 <= i < |saved| => Some(saved[i]));
  }

  /** The array spread `[...l]`: it reads every index, so a hole becomes a
      real `undefined` element and everything else is copied. */
  function Spread<V>(l: WatchList<V>): (r: WatchList<V>)
    ensures |r| == |l|
    ensures forall i :: 0 <= i < |l| ==> r[i] == if l[i].Hole? then Undefined else l[i]
    ensures NoHoles(l) ==> r == l
    ensures !HasUndefined(r) <==> (forall i :: 0 <= i < |l| ==> l[i].Watched?)
  {
    var r := seq(|l|, i requires 0 <= i < |l| => if l[i].Hole? then Undefined else l[i]);
    assert !HasUndefined(r) ==> forall i :: 0 <= i < |l| ==> l[i].Watched? by {
      if !HasUndefined(r) {
        forall i | 0 <= i < |l| ensures l[i].Watched? {
          assert !r[i].Undefined?;
        }
      }
    }
    r
  }

  /** `_addWatchExpression`: '' is ignored; anything else goes last, after a
      spread copy of the list. */
  function Add<V>(l: WatchList<V>, expression: string, evaluate: string -> V): (r: WatchList<V>)
    ensures expression == "" ==> r == l
    ensures expression != "" ==> |r| == |l| + 1 && r[|l|] == Evaluate(expression, evaluate)
    // the old slots are kept, each hole turned into `undefined`
    ensures expression != "" ==> forall i :: 0 <= i < |l| ==> r[i] == if l[i].Hole? then Undefined else l[i]
    ensures NoHoles(l) ==> NoHoles(r) && (expression != "" ==> r[..|l|] == l)
  {
    if expression == "" then l else Spread(l) + [Evaluate(expression, evaluate)]
  }

  /** The start index `splice(index, 1)` deletes at: a negative index counts
      from the end (and stops at 0), a large one stops at the end. */
  function SpliceStart(index: int, len: nat): (s: nat)
    ensures s <= len
    ensures 0 <= index ==> s == if index < len then index else len
    ensures index < 0 ==> s == if len + index > 0 then len + index else 0
  {
    if index < 0 then (if len + index > 0 then len + index else 0)
    else if index < len then index else len
  }

  /** `_removeWatchExpression`: `splice(index, 1)` on a copy. */
  function Remove<V>(l: WatchList<V>, index: int): (r: WatchList<V>)
    // an index inside the list deletes exactly that element, keeping the order of the rest
    ensures 0 <= index < |l| ==> r == l[..index] + l[index + 1..]
    // a negative one counts from the end
    ensures -|l| <= index < 0 ==> r == l[..|l| + index] + l[|l| + index + 1..]
    // past the end nothing is deleted
    ensures index >= |l| ==> r == l
    ensures |l| - 1 <= |r| <= |l|
    ensures NoHoles(l) ==> NoHoles(r)
  {
    var s := SpliceStart(index, |l|);
    if s < |l| then l[..s] + l[s + 1..] else l
  }

  /** `_updateWatchExpression`: '' removes the entry; otherwise the slot at
      `index` gets the new expression, growing the array (with holes) when the
      index is past its end. */
  function Update<V>(l: WatchList<V>, index: int, newExpression: string, evaluate: string -> V): (r: WatchList<V>)
    ensures newExpression == "" ==> r == Remove(l, index)
    // inside the list only that slot changes
    ensures newExpression != "" && 0 <= index < |l| ==>
              |r| == |l| && r[index] == Evaluate(newExpression, evaluate)
              && forall i :: 0 <= i < |l| && i != index ==> r[i] == l[i]
    // past the end the array grows to `index + 1`, with holes in between
    ensures newExpression != "" && |l| <= index <= MaxArrayIndex ==>
              |r| == index + 1 && r[..|l|] == l && r[index] == Evaluate(newExpression, evaluate)
              && forall i :: |l| <= i < index ==> r[i].Hole?
    // a negative or too large index is no array index: the elements stay
    ensures newExpression != "" && (index < 0 || (index > MaxArrayIndex && index >= |l|)) ==> r == l
  {
    if newExpression == "" then Remove(l, index)
    else if 0 <= index < |l| then l[index := Evaluate(newExpression, evaluate)]
    else if index < 0 || index > MaxArrayIndex then l
    else l + seq(index - |l|, _ => Hole) + [Evaluate(newExpression, evaluate)]
  }

  /** `_refetchWatchSubscriptions`: every expression evaluated again, in
      place; `map` skips holes, and destructuring an `undefined` slot throws. */
  function Refetch<V>(l: WatchList<V>, evaluate: string -> V): (r: Result<WatchList<V>, string>)
    ensures r.Err? <==> HasUndefined(l)
    ensures r.Err? ==> r.error == TypeError
    ensures r.Ok? ==> |r.value| == |l|
    ensures r.Ok? ==> forall i :: 0 <= i < |l| ==>
              r.value[i] == if l[i].Watched? then Evaluate(l[i].expression, evaluate) else Hole
  {
    if HasUndefined(l) then Err(TypeError)
    else Ok(seq(|l|, i requires 0 <= i < |l| => if l[i].Watched? then Evaluate(l[i].expression, evaluate) else Hole))
  }

  /** Refetching keeps the expressions and their order. */
  lemma RefetchKeepsExpressions<V>(l: WatchList<V>, evaluate: string -> V)
    requires Refetch(l, evaluate).Ok?
    ensures Serialize(Refetch(l, evaluate).value) == Serialize(l)
  {
    var r := Refetch(l, evaluate).value;
    assert !HasUndefined(r) by {
      forall i | 0 <= i < |r| ensures !r[i].Undefined? {
      }
    }
    assert Serialize(r).value == Serialize(l).value;
  }

  /** `_handlePayload`. A callback that throws leaves the published list as
      it was and the error goes to the dispatcher. */
  function HandlePayload<V>(l: WatchList<V>, action: Action, evaluate: string -> V): (r: Result<WatchList<V>, string>)
    // the list changes only through the four actions, and a mode change only when the debugger starts
    ensures action.Other? ==> r == Ok(l)
    ensures action.DebuggerModeChange? && action.mode != Starting ==> r == Ok(l)
    // starting throws exactly when a slot is `undefined`, and otherwise keeps the saved expressions
    ensures action == DebuggerModeChange(Starting) ==> (r.Err? <==> HasUndefined(l))
    ensures action == DebuggerModeChange(Starting) && r.Ok? ==> Serialize(r.value) == Serialize(l)
    // the edits never throw
    ensures !action.DebuggerModeChange? ==> r.Ok?
    // and never introduce a hole except by assigning past the end
    ensures NoHoles(l) && !(action.UpdateWatchExpression? && action.newExpression != "" && action.index > |l|)
            ==> r.Ok? && NoHoles(r.value)
  {
    match action
    case AddWatchExpression(e) => Ok(Add(l, e, evaluate))
    case RemoveWatchExpression(i) => Ok(Remove(l, i))
    case UpdateWatchExpression(i, e) => Ok(Update(l, i, e, evaluate))
    case DebuggerModeChange(mode) =>
      if mode != Starting then Ok(l)
      else if Refetch(l, evaluate).Err? then Refetch(l, evaluate)
      else RefetchKeepsExpressions(l, evaluate); Refetch(l, evaluate)
    case Other => Ok(l)
  }

  /** Removing the entry just added gives the list back as the spread copied
      it: unchanged when it had no holes, with `undefined` for each hole
      otherwise. */
  lemma RemoveUndoesAdd<V>(l: WatchList<V>, expression: string, evaluate: string -> V)
    requires expression != ""
    ensures Remove(Add(l, expression, evaluate), |l|) == Spread(l)
    ensures Remove(Add(l, expression, evaluate), -1) == Spread(l)
    ensures NoHoles(l) ==> Remove(Add(l, expression, evaluate), |l|) == l
  {
    var r := Add(l, expression, evaluate);
    assert r[..|l|] == Spread(l);
  }

  /** Assigning past the end of an empty list leaves a hole that a restart
      skips; adding an expression after it turns the hole into `undefined`,
      and the next restart, like saving the list, throws. */
  lemma AddOverHoleThenStartThrows<V>(evaluate: string -> V)
    ensures var sparse := Update([], 1, "x", evaluate);
            HandlePayload(sparse, DebuggerModeChange(Starting), evaluate).Ok?
            && var added := Add(sparse, "y", evaluate);
               HandlePayload(added, DebuggerModeChange(Starting), evaluate) == Err(TypeError)
               && Serialize(added) == Err(TypeError)
  {
    var sparse := Update([], 1, "x", evaluate);
    assert sparse[0].Hole?;
    var added := Add(sparse, "y", evaluate);
    assert added[0].Undefined?;
  }

  /** Writing an entry's old expression back restores the saved list. */
  lemma UpdateBackRestores<V>(l: WatchList<V>, index: int, e: string, evaluate: string -> V)
    requires 0 <= index < |l| && l[index].Watched? && l[index].expression != "" && e != ""
    ensures Serialize(Update(Update(l, index, e, evaluate), index, l[index].expression, evaluate)) == Serialize(l)
  {
    var r := Update(Update(l, index, e, evaluate), index, l[index].expression, evaluate);
    assert |r| == |l|;
    assert forall i :: 0 <= i < |l| ==> r[i].Undefined? == l[i].Undefined?;
    assert HasUndefined(r) == HasUndefined(l);
    if !HasUndefined(l) {
      assert Serialize(r).value == Serialize(l).value;
    }
  }
}
