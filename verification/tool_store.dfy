/**
 * The shared tool store: a history of strings that keeps the 10 most recent additions, oldest
 * first, and can be cleared.
 */
module ToolStore {
  import opened JsText

  /** How many history entries the store keeps. */
  const HistoryLimit := 10

  /** `[...history, item].slice(-10)`. */
  function NextHistory(history: seq<string>, item: string): (r: seq<string>)
    ensures |r| == if |history| < HistoryLimit then |history| + 1 else HistoryLimit
  {
    TakeLast(history + [item], HistoryLimit)
  }

  /**
   * The new history ends with the added item, holds at most 10 entries, and is the tail of the old
   * history followed by the item; below the bound nothing is dropped.
   */
  lemma NextHistoryShape(history: seq<string>, item: string)
    ensures var r := NextHistory(history, item);
      && 1 <= |r| <= HistoryLimit
      && r[|r| - 1] == item
      && r == (history + [item])[|history| + 1 - |r|..]
      && (|history| < HistoryLimit ==> r == history + [item])
  {
    var all := history + [item];
    assert all[|all| - 1] == item;
  }

  /** The entries that survive an addition are the newest old ones, in their old order. */
  lemma NextHistoryKeepsNewest(history: seq<string>, item: string)
    ensures var r := NextHistory(history, item);
      r[..|r| - 1] == history[|history| + 1 - |r|..]
  {
    var all := history + [item];
    var r := NextHistory(history, item);
    assert r[..|r| - 1] == all[|all| - |r|..|all| - 1];
    assert all[..|history|] == history;
  }

  /** What the store can be asked to do. */
  datatype Op = Add(item: string) | Clear

  /** The history after `op`. */
  function Apply(history: seq<string>, op: Op): (r: seq<string>)
    ensures op.Clear? ==> r == []
  {
    match op
    case Add(item) => NextHistory(history, item)
    case Clear => []
  }

  /** The history after a sequence of operations, applied in order. */
  function Run(history: seq<string>, ops: seq<Op>): seq<string>
    decreases |ops|
  {
    if ops == [] then history else Run(Apply(history, ops[0]), ops[1..])
  }

  /** From the empty initial history, every sequence of operations leaves at most 10 entries. */
  lemma {:induction false} RunBounded(history: seq<string>, ops: seq<Op>)
    requires |history| <= HistoryLimit
    ensures |Run(history, ops)| <= HistoryLimit
    decreases |ops|
  {
    if ops != [] {
      RunBounded(Apply(history, ops[0]), ops[1..]);
    }
  }

  /** After any operations that end with an addition, the last entry is the added item. */
  lemma RunEndsWithAdd(history: seq<string>, ops: seq<Op>, item: string)
    ensures var r := Run(history, ops + [Add(item)]);
      r != [] && r[|r| - 1] == item
  {
    RunSnoc(history, ops, Add(item));
    NextHistoryShape(Run(history, ops), item);
  }

  /** Running one more operation applies it to the result of the others. */
  lemma {:induction false} RunSnoc(history: seq<string>, ops: seq<Op>, op: Op)
    ensures Run(history, ops + [op]) == Apply(Run(history, ops), op)
    decreases |ops|
  {
    if ops == [] {
      assert ops + [op] == [op];
      assert [op][1..] == [];
    } else {
      assert (ops + [op])[1..] == ops[1..] + [op];
      RunSnoc(Apply(history, ops[0]), ops[1..], op);
    }
  }

  /** The store: one `history` field. */
  class Store {
    var history: seq<string>

    /** The history starts empty. */
    constructor ()
      ensures history == []
    {
      history := [];
    }

    /** `addHistory(item)`. */
    method AddHistory(item: string)
      modifies this
      ensures history == NextHistory(old(history), item)
    {
      history := NextHistory(history, item);
    }

    /** `clearHistory()`. */
    method ClearHistory()
      modifies this
      ensures history == []
    {
      history := [];
    }
  }
}
