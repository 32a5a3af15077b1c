/** `parseSimpleYaml` of generate-data.mjs: a line-by-line reader for the small
    YAML subset of the configuration file. Objects live in a store and refer to
    each other by number, as the JavaScript objects refer to each other by
    reference; object 0 is the result. A stack of (object, indentation) frames
    says where the next key goes. */
module Yaml {
  import opened Wrappers
  import opened Strings

  /** A value written into an object: `true`/`false`, a number (kept as its
      text), `[]`, any other string, or a nested object. */
  datatype YValue = YBool(b: bool) | YNumber(text: string) | YEmptyArray | YText(s: string) | YObject(id: nat)

  /** Every object created so far, by number. */
  type Store = seq<map<string, YValue>>

  datatype Frame = Frame(obj: nat, indent: int)

  datatype State = State(store: Store, stack: seq<Frame>)

  /** The frame of `result`, which is never popped. */
  const RootFrame: Frame := Frame(0, -1)

  const Colon: string := ":"
  const Hash: string := "#"
  const True: string := "true"
  const False: string := "false"
  const EmptyArray: string := "[]"

  predicate Valid(st: State) {
    |st.store| >= 1 && |st.stack| >= 1 && st.stack[0] == RootFrame
    && (forall i :: 0 <= i < |st.stack| ==> st.stack[i].obj < |st.store|)
    && (forall i, j :: 0 <= i < j < |st.stack| ==> st.stack[i].indent < st.stack[j].indent)
  }

  function Start(): (r: State)
    ensures Valid(r)
  {
    State([map[]], [RootFrame])
  }

  /** A comment or a blank line. */
  predicate Skipped(line: string) {
    StartsWith(Trim(line), Hash) || Trim(line) == ""
  }

  /** `line.search(/\S/)`: the index of the first character that is not white space. */
  function Indent(line: string): (r: nat)
    ensures r <= |line| && forall i :: 0 <= i < r ==> IsSpace(line[i])
    ensures r < |line| ==> !IsSpace(line[r])
  {
    |line| - |TrimStart(line)|
  }

  /** `key.trim()` for `const [key, ...valueParts] = trimmed.split(':')`. */
  function KeyOf(trimmed: string): string {
    Trim(Split(trimmed, Colon)[0])
  }

  /** `valueParts.join(':').trim()`. */
  function ValueOf(trimmed: string): string {
    Trim(Join(Split(trimmed, Colon)[1..], Colon))
  }

  predicate IsDigit(c: char) {
    '0' <= c <= '9'
  }

  /** A decimal numeral: an optional sign, then digits with at most one point,
      at least one of them a digit. */
  predicate DecimalNumber(s: string) {
    var body := if s != [] && (s[0] == '-' || s[0] == '+') then s[1..] else s;
    (exists i :: 0 <= i < |body| && IsDigit(body[i]))
    && (forall i :: 0 <= i < |body| ==> IsDigit(body[i]) || body[i] == '.')
    && (forall i, j :: 0 <= i < j < |body| && body[i] == '.' ==> body[j] != '.')
  }

  /** Text without a digit is no numeral: `true` and `false` are read as booleans
      whatever their position in the order of tests. */
  lemma NoDigitNoNumber(s: string)
    requires forall i :: 0 <= i < |s| ==> !IsDigit(s[i])
    ensures !DecimalNumber(s)
  {
    if s != [] && (s[0] == '-' || s[0] == '+') {
      assert forall i :: 0 <= i < |s[1..]| ==> s[1..][i] == s[i + 1];
    }
  }

  /** The text a scalar value is written as in the file; an object has none. */
  function Written(v: YValue): string {
    match v
    case YBool(b) => if b then True else False
    case YNumber(t) => t
    case YEmptyArray => EmptyArray
    case YText(s) => s
    case YObject(_) => ""
  }

  /** The typed value of a non-empty value text, tried in the order of the source:
      `true` and `false` become booleans, numerals numbers, `[]` an empty array, and
      any other text stays the string it is. No text is lost: the value is written
      as the text it was read from. */
  function Typed(value: string): (r: YValue)
    ensures !r.YObject? && Written(r) == value
    ensures r.YBool? <==> value == True || value == False
    ensures r.YNumber? <==> DecimalNumber(value)
    ensures r.YText? <==> value != True && value != False && !DecimalNumber(value) && value != EmptyArray
  {
    if value == True then NoDigitNoNumber(True); YBool(true)
    else if value == False then NoDigitNoNumber(False); YBool(false)
    else if DecimalNumber(value) then YNumber(value)
    else if value == EmptyArray then YEmptyArray
    else YText(value)
  }

  /** `while (stack.length > 1 && indent <= stack[stack.length - 1].indent) stack.pop()`. */
  function Pop(stack: seq<Frame>, indent: int): (r: seq<Frame>)
    requires |stack| >= 1
    ensures 1 <= |r| <= |stack| && r == stack[..|r|]
    ensures |r| == 1 || r[|r| - 1].indent < indent
    ensures |r| < |stack| ==> indent <= stack[|r|].indent
    decreases |stack|
  {
    if |stack| > 1 && indent <= stack[|stack| - 1].indent then Pop(stack[..|stack| - 1], indent) else stack
  }

  /** What one line says: nothing, or a key and a value at an indentation. */
  datatype Line = Ignored | KeyLine(indent: nat, key: string, value: string)

  function ReadLine(line: string): Line {
    var trimmed := Trim(line);
    if Skipped(line) || ':' !in trimmed then Ignored
    else KeyLine(Indent(line), KeyOf(trimmed), ValueOf(trimmed))
  }

  /** A key line applied: pop to the parent, then set the key, opening a new
      object and frame when the value is empty. */
  function Apply(st: State, indent: nat, key: string, value: string): (r: State)
    requires Valid(st)
    ensures Valid(r)
  {
    var stack := Pop(st.stack, indent);
    var parent := stack[|stack| - 1].obj;
    if value == "" then
      var id := |st.store|;
      var r := State(st.store[parent := st.store[parent][key := YObject(id)]] + [map[]], stack + [Frame(id, indent)]);
      assert forall i :: 0 <= i < |stack| ==> stack[i].indent <= stack[|stack| - 1].indent < indent;
      r
    else
      State(st.store[parent := st.store[parent][key := Typed(value)]], stack)
  }

  /** One line read. */
  function Step(st: State, line: string): (r: State)
    requires Valid(st)
    ensures Valid(r)
  {
    match ReadLine(line)
    case Ignored => st
    case KeyLine(indent, key, value) => Apply(st, indent, key, value)
  }

  /** The state after reading `lines`. */
  function Run(lines: seq<string>): (r: State)
    ensures Valid(r)
    decreases |lines|
  {
    if lines == [] then Start() else Step(Run(lines[..|lines| - 1]), lines[|lines| - 1])
  }

  /** The object `parseSimpleYaml(text)` returns, with every object it reaches. */
  function ParseSimpleYaml(text: string): Store {
    Run(Split(text, "\n")).store
  }

  method ParseYaml(text: string) returns (store: Store)
    ensures store == ParseSimpleYaml(text)
  {
    var lines := Split(text, "\n");
    store := [map[]];
    var stack := [RootFrame];
    for n := 0 to |lines|
      invariant State(store, stack) == Run(lines[..n])
    {
      var line := lines[n];
      assert lines[..n + 1][..n] == lines[..n] && lines[..n + 1][n] == line;
      assert Run(lines[..n + 1]) == Step(Run(lines[..n]), line);
      var trimmed := Trim(line);
      if StartsWith(trimmed, Hash) || trimmed == "" {
        assert ReadLine(line) == Ignored;
        continue;
      }
      if ':' !in trimmed {
        assert ReadLine(line) == Ignored;
      } else {
        var indent := Indent(line);
        var key := KeyOf(trimmed);
        var value := ValueOf(trimmed);
        assert ReadLine(line) == KeyLine(indent, key, value);
        store, stack := ApplyLine(store, stack, indent, key, value);
      }
    }
    assert lines[..|lines|] == lines;
  }

  /** A key line: pop the frames not shallower than the line, then set the key in
      the innermost object left, opening a new object and frame for an empty value. */
  method ApplyLine(store0: Store, stack0: seq<Frame>, indent: nat, key: string, value: string)
    returns (store: Store, stack: seq<Frame>)
    requires Valid(State(store0, stack0))
    ensures State(store, stack) == Apply(State(store0, stack0), indent, key, value)
  {
    store, stack := store0, stack0;
    while |stack| > 1 && indent <= stack[|stack| - 1].indent
      invariant 1 <= |stack| && Pop(stack, indent) == Pop(stack0, indent)
    {
      stack := stack[..|stack| - 1];
    }
    var parent := stack[|stack| - 1].obj;
    if value == "" {
      var id := |store|;
      store := store[parent := store[parent][key := YObject(id)]] + [map[]];
      stack := stack + [Frame(id, indent)];
    } else {
      store := store[parent := store[parent][key := Typed(value)]];
    }
  }

  // ---------------------------------------------------------------------------
  // What a line does

  /** Blank lines, comments and lines without a colon change nothing. */
  lemma IgnoredLines(line: string)
    requires Trim(line) == "" || Trim(line)[0] == '#' || ':' !in Trim(line)
    ensures ReadLine(line) == Ignored
  {
    if Trim(line) != "" && Trim(line)[0] == '#' {
      assert Trim(line)[..1] == Hash;
    }
  }

  /** The key is the text before the first colon and the value everything after
      it, later colons included, both trimmed. */
  lemma ValueKeepsColons(k: string, v: string)
    requires ':' !in k
    ensures KeyOf(k + Colon + v) == Trim(k)
    ensures ValueOf(k + Colon + v) == Trim(v)
  {
    var s := k + Colon + v;
    FirstCharFind(k, ':', v);
    assert s[..|k|] == k && s[|k| + 1..] == v;
    assert Split(s, Colon) == [k] + Split(v, Colon);
    JoinSplitChar(v, ':');
  }

  /** Only frames shallower than the line stay on the stack, and the root always does. */
  lemma PopKeepsShallower(stack: seq<Frame>, indent: int)
    requires |stack| >= 1
    requires forall i, j :: 0 <= i < j < |stack| ==> stack[i].indent < stack[j].indent
    ensures Pop(stack, indent)[0] == stack[0]
    ensures forall i :: 1 <= i < |stack| ==> (i < |Pop(stack, indent)| <==> stack[i].indent < indent)
  {
    var r := Pop(stack, indent);
    forall i | 1 <= i < |stack| ensures i < |r| <==> stack[i].indent < indent {
      if i < |r| {
        assert stack[i].indent <= r[|r| - 1].indent;
      } else {
        assert stack[|r|].indent <= stack[i].indent;
      }
    }
  }

  /** A line with an empty value creates a new empty object, sets it under its key
      in the nearest frame indented less than the line, and becomes the innermost
      frame; a line with a value sets the typed value there. No other object changes. */
  lemma ApplyEffect(st: State, indent: nat, key: string, value: string)
    requires Valid(st)
    ensures var stack := Pop(st.stack, indent);
      var parent := stack[|stack| - 1].obj;
      var r := Apply(st, indent, key, value);
      (value == "" ==>
         |r.store| == |st.store| + 1 && r.store[|st.store|] == map[]
         && r.store[parent] == st.store[parent][key := YObject(|st.store|)]
         && r.stack == stack + [Frame(|st.store|, indent)])
      && (value != "" ==> r.store[parent] == st.store[parent][key := Typed(value)] && r.stack == stack)
      && |r.store| >= |st.store|
      && (forall i :: 0 <= i < |st.store| && i != parent ==> r.store[i] == st.store[i])
  {
  }
}
