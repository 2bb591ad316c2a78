/**
 * The regular-expression tester: the flag toggle, and the test button, which collects the matches
 * of the pattern in the test text. The regular-expression engine itself (`new RegExp` and `exec`)
 * is not modelled; it is a parameter.
 */
module RegexTester {
  import opened Wrappers
  import opened JsText

  const InitialFlags := "g"
  /** The flag buttons. */
  const FlagButtons: seq<char> := ['g', 'i', 'm', 's', 'u', 'y']

  const EmptyPatternError := "请输入正则表达式"
  const NoMatchError := "没有找到匹配项"
  const InvalidRegexError := "无效的正则表达式"

  // ---- the flag toggle ----

  /** The position of the first `c` in `s`. */
  function FirstIndex(s: string, c: char): (k: nat)
    requires c in s
    ensures k < |s| && s[k] == c
    ensures forall j :: 0 <= j < k ==> s[j] != c
    decreases |s|
  {
    if s[0] == c then 0 else 1 + FirstIndex(s[1..], c)
  }

  /** `s` without the element at `k`. */
  function DropAt(s: string, k: nat): (r: string)
    requires k < |s|
    ensures |r| == |s| - 1
    ensures forall i :: 0 <= i < |r| ==> r[i] == s[if i < k then i else i + 1]
  {
    s[..k] + s[k + 1..]
  }

  /** `s.replace(c, "")` for a one-character pattern: the first `c` is dropped. */
  function RemoveFirst(s: string, c: char): (r: string)
    ensures c !in s ==> r == s
  {
    if c in s then DropAt(s, FirstIndex(s, c)) else s
  }

  /** `toggleFlag`: a flag that is there is removed (its first occurrence), an absent one is appended. */
  function ToggleFlag(flags: string, flag: char): (r: string)
    ensures flag !in flags ==> r == flags + [flag]
    ensures flag in flags ==> |r| == |flags| - 1 && multiset(r) == multiset(flags) - multiset{flag}
  {
    if flag in flags then
      var k := FirstIndex(flags, flag);
      assert flags == flags[..k] + [flag] + flags[k + 1..];
      RemoveFirst(flags, flag)
    else flags + [flag]
  }

  /** Dropping one element of a list without repeats leaves a list without repeats that lacks that element. */
  lemma DropAtNoDuplicates(s: string, k: nat)
    requires k < |s| && NoDuplicates(s)
    ensures NoDuplicates(DropAt(s, k)) && s[k] !in DropAt(s, k)
  {
    var r := DropAt(s, k);
    forall i, j | 0 <= i < j < |r| ensures r[i] != r[j] {
      var i', j' := if i < k then i else i + 1, if j < k then j else j + 1;
      assert r[i] == s[i'] && r[j] == s[j'] && i' < j';
    }
    forall i | 0 <= i < |r| ensures r[i] != s[k] {
      var i' := if i < k then i else i + 1;
      assert r[i] == s[i'] && i' != k;
    }
  }

  /** A flag string without repeats keeps none after a toggle, and holds the flag exactly when it did not before. */
  lemma ToggleFlagNoDuplicates(flags: string, flag: char)
    requires NoDuplicates(flags)
    ensures NoDuplicates(ToggleFlag(flags, flag))
    ensures flag in ToggleFlag(flags, flag) <==> flag !in flags
  {
    var r := ToggleFlag(flags, flag);
    if flag in flags {
      DropAtNoDuplicates(flags, FirstIndex(flags, flag));
    } else {
      forall i, j | 0 <= i < j < |r| ensures r[i] != r[j] {
        if j == |flags| {
          assert r[i] == flags[i];
        }
      }
      assert r[|flags|] == flag;
    }
  }

  /** Toggling an absent flag twice gives the flags back. */
  lemma ToggleAbsentTwice(flags: string, flag: char)
    requires flag !in flags
    ensures ToggleFlag(ToggleFlag(flags, flag), flag) == flags
  {
    var once := flags + [flag];
    assert once[|flags|] == flag;
    assert FirstIndex(once, flag) == |flags|;
    assert once[..|flags|] == flags;
  }

  /** Toggling a present flag twice keeps the same flags when none is repeated, though not in the same order. */
  lemma TogglePresentTwice(flags: string, flag: char)
    requires NoDuplicates(flags) && flag in flags
    ensures multiset(ToggleFlag(ToggleFlag(flags, flag), flag)) == multiset(flags)
  {
    ToggleFlagNoDuplicates(flags, flag);
    var once := ToggleFlag(flags, flag);
    assert multiset(once + [flag]) == multiset(once) + multiset{flag};
  }

  /** The order changes: toggling `g` twice turns `gi` into `ig`. */
  lemma TogglePresentTwiceReorders()
    ensures ToggleFlag(ToggleFlag("gi", 'g'), 'g') == "ig"
  {
    var gi := "gi";
    assert FirstIndex(gi, 'g') == 0;
    assert ToggleFlag(gi, 'g') == "i";
  }

  // ---- the test button ----

  /** One match as the page records it: the matched text, where it starts, and its named groups. */
  datatype RegexMatch = RegexMatch(text: string, index: nat, groups: Option<map<string, string>>)

  /** `regex.exec(testString)` with `regex.lastIndex` at the given position. */
  type Exec = nat -> Option<RegexMatch>

  /** What `new RegExp(pattern, flags)` gives: an error (with its message when it is an `Error`), or a regex. */
  datatype Compiled = CompileError(message: Option<string>) | Compiled(exec: Exec)

  /** `new RegExp`, not modelled. */
  type Compile = (string, string) -> Compiled

  /** Every match found from position `from` starts there or later and lies inside the text. */
  ghost predicate ExecWithin(exec: Exec, length: nat) {
    forall from: nat :: exec(from).Some? ==>
      from <= exec(from).value.index && exec(from).value.index + |exec(from).value.text| <= length
  }

  /**
   * The matches the loop collects from position `from`, and whether it stops: without `g` it stops
   * after the first match; with `g` it goes on after each match, and an empty match would be found
   * again and again (the page never leaves the loop), which is reported as not finishing.
   */
  function Collect(exec: Exec, length: nat, global: bool, from: nat): (r: (seq<RegexMatch>, bool))
    requires ExecWithin(exec, length)
    ensures r.0 == [] <==> exec(from).None?
    ensures r.0 != [] ==> r.0[0] == exec(from).value
    ensures !r.1 ==> global
    decreases length - from
  {
    match exec(from)
    case None => ([], true)
    case Some(m) =>
      if !global then ([m], true)
      else if |m.text| == 0 then ([m], false)
      else
        var rest := Collect(exec, length, global, m.index + |m.text|);
        ([m] + rest.0, rest.1)
  }

  /** Without the `g` flag at most one match is recorded, and the loop always stops. */
  lemma CollectWithoutGlobal(exec: Exec, length: nat, from: nat)
    requires ExecWithin(exec, length)
    ensures |Collect(exec, length, false, from).0| <= 1 && Collect(exec, length, false, from).1
  {
  }

  /** The matches lie in the text from `from` on, in text order, without overlapping. */
  predicate InOrder(ms: seq<RegexMatch>, from: nat, length: nat) {
    && (forall i :: 0 <= i < |ms| ==> from <= ms[i].index && ms[i].index + |ms[i].text| <= length)
    && (forall i, j :: 0 <= i < j < |ms| ==> ms[i].index + |ms[i].text| <= ms[j].index)
  }

  /** The matches come in text order and do not overlap, all at `from` or later. */
  lemma {:induction false} CollectOrdered(exec: Exec, length: nat, global: bool, from: nat)
    requires ExecWithin(exec, length)
    ensures InOrder(Collect(exec, length, global, from).0, from, length)
    decreases length - from
  {
    match exec(from)
    case None =>
    case Some(m) =>
      if global && |m.text| > 0 {
        var next := m.index + |m.text|;
        CollectOrdered(exec, length, global, next);
        var rest := Collect(exec, length, global, next).0;
        var ms := [m] + rest;
        assert Collect(exec, length, global, from).0 == ms;
        forall i | 0 <= i < |ms| ensures from <= ms[i].index && ms[i].index + |ms[i].text| <= length {
          if i > 0 {
            assert ms[i] == rest[i - 1];
          }
        }
        forall i, j | 0 <= i < j < |ms| ensures ms[i].index + |ms[i].text| <= ms[j].index {
          assert ms[j] == rest[j - 1];
          if i > 0 {
            assert ms[i] == rest[i - 1];
          }
        }
      }
  }

  /** The `while` loop of `testRegex`, with `lastIndex` starting at 0. */
  method CollectMatches(exec: Exec, length: nat, global: bool) returns (results: seq<RegexMatch>, finished: bool)
    requires ExecWithin(exec, length)
    ensures (results, finished) == Collect(exec, length, global, 0)
  {
    results := [];
    var lastIndex: nat := 0;
    finished := true;
    while true
      invariant lastIndex <= length
      invariant results + Collect(exec, length, global, lastIndex).0 == Collect(exec, length, global, 0).0
      invariant Collect(exec, length, global, lastIndex).1 == Collect(exec, length, global, 0).1
      decreases length - lastIndex
    {
      var found := exec(lastIndex);
      if found.None? {
        assert results + [] == results;
        return;
      }
      var m := found.value;
      results := results + [m];
      if !global {
        return;
      }
      if |m.text| == 0 {
        finished := false;
        return;
      }
      lastIndex := m.index + |m.text|;
    }
  }

  /** The tester's state: the `useState` fields. */
  class Tester {
    var pattern: string
    var flags: string
    var testString: string
    var matches: seq<RegexMatch>
    var error: Option<string>

    /** The flag string never holds a flag twice. */
    predicate Valid()
      reads this
    {
      NoDuplicates(flags)
    }

    /** An empty pattern and text, the `g` flag, no matches and no error. */
    constructor ()
      ensures pattern == [] && flags == InitialFlags && testString == [] && matches == [] && error == None
      ensures Valid()
    {
      pattern, flags, testString, matches, error := [], InitialFlags, [], [], None;
    }

    /** A flag button. */
    method ToggleFlagButton(flag: char)
      requires Valid() && flag in FlagButtons
      modifies this
      ensures Valid()
      ensures flags == ToggleFlag(old(flags), flag)
      ensures pattern == old(pattern) && testString == old(testString)
      ensures matches == old(matches) && error == old(error)
    {
      ToggleFlagNoDuplicates(flags, flag);
      flags := ToggleFlag(flags, flag);
    }

    /**
     * `testRegex`, with `new RegExp` as a parameter. An empty pattern is an error and compiles
     * nothing; a pattern that does not compile shows the error's message; otherwise the collected
     * matches are shown, and none at all is reported as an error. `finished` is false when the page
     * would never leave its loop.
     */
    method TestRegex(compile: Compile) returns (compiled: bool, finished: bool)
      requires pattern != [] && compile(pattern, flags).Compiled? ==> ExecWithin(compile(pattern, flags).exec, |testString|)
      modifies this
      ensures pattern == old(pattern) && flags == old(flags) && testString == old(testString)
      ensures pattern == [] ==> !compiled && finished && matches == [] && error == Some(EmptyPatternError)
      ensures pattern != [] && compile(pattern, flags).CompileError? ==>
        !compiled && finished && matches == []
        && error == Some(if compile(pattern, flags).message.Some? then compile(pattern, flags).message.value else InvalidRegexError)
      ensures pattern != [] && compile(pattern, flags).Compiled? ==>
        var r := Collect(compile(pattern, flags).exec, |testString|, 'g' in flags, 0);
        && compiled && matches == r.0 && finished == r.1
        && error == (if r.0 == [] then Some(NoMatchError) else None)
    {
      error := None;
      matches := [];
      compiled, finished := false, true;
      if pattern == [] {
        error := Some(EmptyPatternError);
        return;
      }
      match compile(pattern, flags) {
        case CompileError(message) =>
          error := Some(if message.Some? then message.value else InvalidRegexError);
        case Compiled(exec) =>
          compiled := true;
          var results;
          results, finished := CollectMatches(exec, |testString|, 'g' in flags);
          matches := results;
          if |results| == 0 {
            error := Some(NoMatchError);
          }
      }
    }
  }
}
