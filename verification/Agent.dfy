/**
 * `src/agent/tools.rs` and `src/agent/mod.rs`: the tool registry with its key/value
 * memory, and the command loop that drives it.
 */
module Agent {
  import opened Basics
  import opened Context

  // ------------------------------------------------------------------
  // Strings
  // ------------------------------------------------------------------

  /** Unicode White_Space, as `str::trim` uses it. */
  predicate White(c: char) {
    var n := c as int;
    || 0x09 <= n <= 0x0D || n == 0x20 || n == 0x85 || n == 0xA0 || n == 0x1680
    || 0x2000 <= n <= 0x200A || n == 0x2028 || n == 0x2029 || n == 0x202F || n == 0x205F || n == 0x3000
  }

  /** The characters with that property in Unicode's PropList. */
  const WHITE_SPACE: set<int> :=
    {0x09, 0x0A, 0x0B, 0x0C, 0x0D, 0x20, 0x85, 0xA0, 0x1680,
     0x2000, 0x2001, 0x2002, 0x2003, 0x2004, 0x2005, 0x2006, 0x2007, 0x2008, 0x2009, 0x200A,
     0x2028, 0x2029, 0x202F, 0x205F, 0x3000}

  lemma WhiteIff(c: char)
    ensures White(c) <==> c as int in WHITE_SPACE
  {}

  function TrimStart(s: string): string {
    if s != "" && White(s[0]) then TrimStart(s[1..]) else s
  }

  function TrimEnd(s: string): string {
    if s != "" && White(s[|s| - 1]) then TrimEnd(s[..|s| - 1]) else s
  }

  function Trim(s: string): string { TrimEnd(TrimStart(s)) }

  predicate AllWhite(s: string) { forall i :: 0 <= i < |s| ==> White(s[i]) }

  lemma {:induction false} TrimStartMeaning(s: string) returns (a: string)
    ensures s == a + TrimStart(s) && AllWhite(a)
    ensures TrimStart(s) != "" ==> !White(TrimStart(s)[0])
  {
    if s != "" && White(s[0]) {
      a := TrimStartMeaning(s[1..]);
      a := [s[0]] + a;
    } else {
      a := "";
    }
  }

  lemma {:induction false} TrimEndMeaning(s: string) returns (b: string)
    ensures s == TrimEnd(s) + b && AllWhite(b)
    ensures TrimEnd(s) != "" ==> !White(TrimEnd(s)[|TrimEnd(s)| - 1])
  {
    if s != "" && White(s[|s| - 1]) {
      b := TrimEndMeaning(s[..|s| - 1]);
      b := b + [s[|s| - 1]];
    } else {
      b := "";
    }
  }

  /** Trimming takes white space off both ends, and leaves none there. */
  lemma TrimMeaning(s: string) returns (a: string, b: string)
    ensures s == a + Trim(s) + b && AllWhite(a) && AllWhite(b)
    ensures Trim(s) != "" ==> !White(Trim(s)[0]) && !White(Trim(s)[|Trim(s)| - 1])
  {
    a := TrimStartMeaning(s);
    b := TrimEndMeaning(TrimStart(s));
    if Trim(s) != "" { assert Trim(s)[0] == TrimStart(s)[0]; }
  }

  predicate NoSpace(s: string) { ' ' !in s }

  /** `splitn(2, ' ')`: what is before the first space, and what is behind it if there is one. */
  function SplitOnce(s: string): (r: (string, Option<string>))
    ensures NoSpace(r.0)
    ensures s == match r.1 { case None => r.0 case Some(rest) => r.0 + " " + rest }
  {
    if s == "" then ("", None)
    else if s[0] == ' ' then ("", Some(s[1..]))
    else var (first, rest) := SplitOnce(s[1..]); ([s[0]] + first, rest)
  }

  /** Splitting undoes joining with a space. */
  lemma {:induction false} SplitJoined(first: string, rest: string)
    requires NoSpace(first)
    ensures SplitOnce(first + " " + rest) == (first, Some(rest))
  {
    var s := first + " " + rest;
    if first == "" {
      assert s[1..] == rest;
    } else {
      assert s[1..] == first[1..] + " " + rest && s[0] == first[0];
      SplitJoined(first[1..], rest);
      assert first == [first[0]] + first[1..];
    }
  }

  // ------------------------------------------------------------------
  // Tools
  // ------------------------------------------------------------------

  datatype BuiltinTool = Calculator | MemoryStore | MemoryRecall | Echo {
    function Name(): string {
      match this
      case Calculator => "calc"
      case MemoryStore => "store"
      case MemoryRecall => "recall"
      case Echo => "echo"
    }
  }

  datatype Result = Ok(text: string) | Err(error: string)

  /** Text produced by formatting and number parsing that is not modelled further. */
  datatype Library = Library(
    calculate: string -> Result,
    nameList: set<string> -> string,
    status: (seq<Message>, nat, nat, nat) -> string,
    help: string)

  function StoreResult(args: string): Result {
    match SplitOnce(args).1
    case None => Err("Usage: /tool store <key> <value>")
    case Some(value) => Ok("Stored: " + SplitOnce(args).0 + " = " + value)
  }

  function StoreEffect(memory: map<string, string>, args: string): map<string, string> {
    match SplitOnce(args).1
    case None => memory
    case Some(value) => memory[SplitOnce(args).0 := value]
  }

  function RecallResult(memory: map<string, string>, args: string): Result {
    var key := Trim(args);
    if key in memory then Ok(key + " = " + memory[key]) else Err("Key '" + key + "' not found in memory")
  }

  class ToolRegistry {
    const library: Library
    var tools: map<string, BuiltinTool>
    var memory: map<string, string>

    constructor (library: Library)
      ensures tools == map[] && memory == map[] && this.library == library
    {
      this.library := library;
      tools, memory := map[], map[];
    }

    method Register(tool: BuiltinTool)
      modifies `tools
      ensures tools == old(tools)[tool.Name() := tool]
    {
      tools := tools[tool.Name() := tool];
    }

    method Execute(name: string, args: string) returns (r: Result)
      modifies `memory
      ensures r == ToolResult(library, tools, old(memory), name, args)
      ensures memory == ToolEffect(tools, old(memory), name, args)
    {
      if name !in tools {
        return Err("Unknown tool '" + name + "'. Available: " + library.nameList(tools.Keys));
      }
      match tools[name] {
        case Calculator => return library.calculate(args);
        case MemoryStore =>
          var (key, value) := SplitOnce(args);
          if value == None {
            return Err("Usage: /tool store <key> <value>");
          }
          memory := memory[key := value.value];
          return Ok("Stored: " + key + " = " + value.value);
        case MemoryRecall => return RecallResult(memory, args);
        case Echo => return Ok("[echo] " + args);
      }
    }
  }

  function ToolResult(library: Library, tools: map<string, BuiltinTool>, memory: map<string, string>, name: string,
                      args: string): Result {
    if name !in tools then Err("Unknown tool '" + name + "'. Available: " + library.nameList(tools.Keys))
    else match tools[name]
      case Calculator => library.calculate(args)
      case MemoryStore => StoreResult(args)
      case MemoryRecall => RecallResult(memory, args)
      case Echo => Ok("[echo] " + args)
  }

  function ToolEffect(tools: map<string, BuiltinTool>, memory: map<string, string>, name: string,
                      args: string): map<string, string> {
    if name in tools && tools[name] == MemoryStore then StoreEffect(memory, args) else memory
  }

  // ------------------------------------------------------------------
  // The agent
  // ------------------------------------------------------------------

  const BUILTINS: map<string, BuiltinTool> :=
    map["calc" := Calculator, "store" := MemoryStore, "recall" := MemoryRecall, "echo" := Echo]

  const SYSTEM_PROMPT :=
    "You are an AI agent running as the sole process on a bare-metal "
    + "x86_64 operating system. You have access to tools for calculation, "
    + "memory storage, and memory recall. Process user input and respond "
    + "helpfully."

  const TOOL_PREFIX := "/tool "

  function ToolName(input: string): string { SplitOnce(input).0 }

  function ToolArgs(input: string): string {
    match SplitOnce(input).1
    case None => ""
    case Some(args) => args
  }

  /** What an input does to the memory. */
  function MemoryAfter(memory: map<string, string>, input: string): map<string, string> {
    if TOOL_PREFIX <= input then ToolEffect(BUILTINS, memory, ToolName(input[6..]), ToolArgs(input[6..])) else memory
  }

  /** The response to a tool call. */
  function ToolResponse(library: Library, memory: map<string, string>, input: string): string
    requires TOOL_PREFIX <= input
  {
    match ToolResult(library, BUILTINS, memory, ToolName(input[6..]), ToolArgs(input[6..]))
    case Ok(text) => text
    case Err(error) => "Tool error: " + error
  }

  /** The Tool message an input leaves in the context: one if the call succeeds. */
  function ToolTrace(library: Library, memory: map<string, string>, input: string): seq<Message> {
    if !(TOOL_PREFIX <= input) then []
    else match ToolResult(library, BUILTINS, memory, ToolName(input[6..]), ToolArgs(input[6..]))
      case Ok(text) => [NewMessage(Tool, text)]
      case Err(_) => []
  }

  /** The memory after a whole run of inputs. */
  function MemoryOf(inputs: seq<string>): map<string, string> {
    if inputs == [] then map[] else MemoryAfter(MemoryOf(inputs[..|inputs| - 1]), inputs[|inputs| - 1])
  }

  /** The status line for the window as it is once the input itself has been pushed. */
  ghost function StatusAfter(library: Library, h: seq<Message>, cut: nat, max: nat, input: string): string
    requires cut <= Evictable(h)
  {
    var c := CutFor(h, cut, EstimateTokens(input), max);
    var messages := Retained(h, c) + [NewMessage(User, input)];
    library.status(messages, Tokens(messages), max, c)
  }

  class Agent {
    const context: ContextWindow
    const registry: ToolRegistry
    /** All inputs processed since boot. */
    ghost var inputs: seq<string>

    ghost predicate Valid()
      reads this, context, registry
    {
      && context.Valid()
      && registry.tools == BUILTINS
      && registry.memory == MemoryOf(inputs)
    }

    constructor (library: Library)
      ensures context.Valid() && context.maxTokens == 4096 && context.history == []
      ensures registry.library == library && registry.tools == map[] && registry.memory == map[] && inputs == []
      ensures fresh(context) && fresh(registry)
    {
      context := new ContextWindow(4096);
      registry := new ToolRegistry(library);
      inputs := [];
    }

    /** Loads the system prompt and registers the built-in tools. */
    method Boot()
      requires context.Valid() && registry.tools == map[] && registry.memory == map[] && inputs == []
      modifies context, registry
      ensures Valid()
      ensures context.history == old(context.history) + [NewMessage(System, SYSTEM_PROMPT)]
    {
      context.PushMessage(System, SYSTEM_PROMPT);
      registry.Register(Calculator);
      registry.Register(MemoryStore);
      registry.Register(MemoryRecall);
      registry.Register(Echo);
    }

    /** A successful call is also recorded as a Tool message. */
    method HandleToolCall(input: string) returns (response: string)
      requires context.Valid()
      modifies context, registry`memory
      ensures context.Valid()
      ensures registry.memory == ToolEffect(registry.tools, old(registry.memory), ToolName(input), ToolArgs(input))
      ensures var result := ToolResult(registry.library, registry.tools, old(registry.memory),
                                       ToolName(input), ToolArgs(input));
              match result {
                case Ok(text) => response == text && context.history == old(context.history) + [NewMessage(Tool, text)]
                case Err(error) => response == "Tool error: " + error && context.history == old(context.history)
              }
    {
      var result := registry.Execute(ToolName(input), ToolArgs(input));
      match result {
        case Ok(text) =>
          context.PushMessage(Tool, text);
          return text;
        case Err(error) => return "Tool error: " + error;
      }
    }

    ghost function StatusNow(): string
      reads this, context, registry
    {
      registry.library.status(context.messages, context.currentTokens, context.maxTokens, context.totalEvicted)
    }

    /** The command parser. */
    method Respond(input: string) returns (response: string)
      requires context.Valid() && registry.tools == BUILTINS
      modifies context, registry`memory
      ensures context.Valid() && registry.memory == MemoryAfter(old(registry.memory), input)
      ensures TOOL_PREFIX <= input ==> response == ToolResponse(registry.library, old(registry.memory), input)
      ensures !(TOOL_PREFIX <= input) ==>
                response == if "/context" <= input then old(StatusNow())
                            else if "/help" <= input then registry.library.help else "[echo] " + input
      ensures context.history == old(context.history) + ToolTrace(registry.library, old(registry.memory), input)
    {
      if TOOL_PREFIX <= input {
        response := HandleToolCall(input[6..]);
      } else if "/context" <= input {
        response := registry.library.status(context.messages, context.currentTokens, context.maxTokens,
                                            context.totalEvicted);
      } else if "/help" <= input {
        response := registry.library.help;
      } else {
        response := "[echo] " + input;
      }
    }

    method ProcessInput(input: string) returns (response: string)
      requires Valid()
      modifies this`inputs, context, registry`memory
      ensures Valid() && inputs == old(inputs) + [input]
      ensures TOOL_PREFIX <= input ==> response == ToolResponse(registry.library, MemoryOf(old(inputs)), input)
      ensures !(TOOL_PREFIX <= input) && !("/context" <= input) ==>
                response == if "/help" <= input then registry.library.help else "[echo] " + input
      ensures !(TOOL_PREFIX <= input) && "/context" <= input ==>
                response == StatusAfter(registry.library, old(context.history), old(context.totalEvicted),
                                        context.maxTokens, input)
      ensures context.history == old(context.history) + [NewMessage(User, input)]
                + ToolTrace(registry.library, MemoryOf(old(inputs)), input) + [NewMessage(Assistant, response)]
    {
      context.PushMessage(User, input);
      response := Respond(input);
      context.PushMessage(Assistant, response);
      assert (inputs + [input])[..|inputs|] == inputs;
      inputs := inputs + [input];
    }
  }

  // ------------------------------------------------------------------
  // Store and recall over whole runs
  // ------------------------------------------------------------------

  /** The input line `/tool <tool> <args>`. */
  function ToolCall(tool: string, args: string): string { TOOL_PREFIX + (tool + " " + args) }

  /** `/tool store <key> <value>` */
  function StoreLine(key: string, value: string): string { ToolCall("store", key + " " + value) }

  /** `/tool recall <key>` */
  function RecallLine(key: string): string { ToolCall("recall", key) }

  /** The input stores something under `key`. */
  ghost predicate Stores(input: string, key: string) {
    exists value :: input == StoreLine(key, value)
  }

  lemma ToolLine(tool: string, args: string)
    requires NoSpace(tool)
    ensures var input := ToolCall(tool, args);
            input == "/tool " + tool + " " + args &&
            TOOL_PREFIX <= input && ToolName(input[6..]) == tool && ToolArgs(input[6..]) == args
  {
    assert ToolCall(tool, args)[6..] == tool + " " + args;
    SplitJoined(tool, args);
  }

  /** A complete store line is answered with what was stored. */
  lemma StoreReply(library: Library, memory: map<string, string>, key: string, value: string)
    requires NoSpace(key)
    ensures TOOL_PREFIX <= StoreLine(key, value)
    ensures ToolResponse(library, memory, StoreLine(key, value)) == "Stored: " + key + " = " + value
  {
    ToolLine("store", key + " " + value);
    SplitJoined(key, value);
  }

  /** Without a value nothing is stored. */
  lemma StoreNeedsValue(library: Library, memory: map<string, string>, key: string)
    requires NoSpace(key)
    ensures var input := ToolCall("store", key);
            && TOOL_PREFIX <= input && MemoryAfter(memory, input) == memory
            && ToolResponse(library, memory, input) == "Tool error: " + "Usage: /tool store <key> <value>"
  {
    ToolLine("store", key);
    SplitOfWord(key);
  }

  lemma {:induction false} SplitOfWord(s: string)
    requires NoSpace(s)
    ensures SplitOnce(s) == (s, None)
  {
    if s != "" { SplitOfWord(s[1..]); }
  }

  lemma CalculatorReply(library: Library, memory: map<string, string>, args: string)
    ensures var input := ToolCall("calc", args);
            && TOOL_PREFIX <= input && MemoryAfter(memory, input) == memory
            && ToolResponse(library, memory, input) ==
               match library.calculate(args) { case Ok(text) => text case Err(error) => "Tool error: " + error }
  {
    ToolLine("calc", args);
  }

  lemma EchoReply(library: Library, memory: map<string, string>, text: string)
    ensures var input := ToolCall("echo", text);
            && TOOL_PREFIX <= input && MemoryAfter(memory, input) == memory
            && ToolResponse(library, memory, input) == "[echo] " + text
  {
    ToolLine("echo", text);
  }

  /** Any other name is answered with the names there are. */
  lemma UnknownReply(library: Library, memory: map<string, string>, name: string, args: string)
    requires NoSpace(name) && name !in {"calc", "store", "recall", "echo"}
    ensures var input := ToolCall(name, args);
            && TOOL_PREFIX <= input && MemoryAfter(memory, input) == memory
            && ToolResponse(library, memory, input) ==
               "Tool error: " + ("Unknown tool '" + name + "'. Available: "
                                 + library.nameList({"calc", "store", "recall", "echo"}))
  {
    ToolLine(name, args);
    assert BUILTINS.Keys == {"calc", "store", "recall", "echo"};
  }

  lemma StoreLineEffect(memory: map<string, string>, key: string, value: string)
    requires NoSpace(key)
    ensures MemoryAfter(memory, StoreLine(key, value)) == memory[key := value]
  {
    ToolLine("store", key + " " + value);
    SplitJoined(key, value);
  }

  /** The input is a tool call that stores something. */
  predicate Storing(input: string) {
    TOOL_PREFIX <= input && ToolName(input[6..]) == "store" && SplitOnce(ToolArgs(input[6..])).1.Some?
  }

  /** A tool call that stores is a store line. */
  lemma StoringInput(input: string)
    requires Storing(input)
    ensures var parts := SplitOnce(ToolArgs(input[6..])); input == StoreLine(parts.0, parts.1.value)
  {
    assert input == TOOL_PREFIX + input[6..];
  }

  lemma MemoryChange(memory: map<string, string>, input: string)
    ensures MemoryAfter(memory, input) ==
            if Storing(input) then var parts := SplitOnce(ToolArgs(input[6..])); memory[parts.0 := parts.1.value]
            else memory
  {}

  /** An input changes the memory under `key` only if it is a store line for `key`. */
  lemma OtherInputsKeep(memory: map<string, string>, input: string, key: string)
    requires NoSpace(key) && !Stores(input, key)
    ensures key in MemoryAfter(memory, input) <==> key in memory
    ensures key in memory ==> MemoryAfter(memory, input)[key] == memory[key]
  {
    MemoryChange(memory, input);
    if Storing(input) {
      var parts := SplitOnce(ToolArgs(input[6..]));
      assert parts.0 != key by {
        StoringInput(input);
        assert parts.0 == key ==> Stores(input, key);
      }
    }
  }

  /** The memory holds, under each key, the value of the latest store line for it. */
  lemma {:induction false} MemoryIsLatest(inputs: seq<string>, key: string, i: nat, value: string)
    requires NoSpace(key) && i < |inputs| && inputs[i] == StoreLine(key, value)
    requires forall j :: i < j < |inputs| ==> !Stores(inputs[j], key)
    ensures key in MemoryOf(inputs) && MemoryOf(inputs)[key] == value
    decreases |inputs|
  {
    var n := |inputs| - 1;
    if i == n {
      StoreLineEffect(MemoryOf(inputs[..n]), key, value);
    } else {
      assert inputs[..n][i] == inputs[i] && forall j :: i < j < n ==> inputs[..n][j] == inputs[j];
      MemoryIsLatest(inputs[..n], key, i, value);
      OtherInputsKeep(MemoryOf(inputs[..n]), inputs[n], key);
    }
  }

  lemma {:induction false} MemoryWithoutStore(inputs: seq<string>, key: string)
    requires NoSpace(key) && forall j :: 0 <= j < |inputs| ==> !Stores(inputs[j], key)
    ensures key !in MemoryOf(inputs)
    decreases |inputs|
  {
    if inputs != [] {
      var n := |inputs| - 1;
      MemoryWithoutStore(inputs[..n], key);
      OtherInputsKeep(MemoryOf(inputs[..n]), inputs[n], key);
    }
  }

  lemma RecallLineResponse(library: Library, memory: map<string, string>, key: string)
    ensures TOOL_PREFIX <= RecallLine(key)
    ensures ToolResponse(library, memory, RecallLine(key)) ==
            match RecallResult(memory, key) { case Ok(text) => text case Err(error) => "Tool error: " + error }
  {
    ToolLine("recall", key);
  }

  /** Recall returns the latest stored value, whatever else happened before and after the store. */
  lemma RecallReturnsLatest(library: Library, inputs: seq<string>, key: string, i: nat, value: string)
    requires NoSpace(key) && Trim(key) == key && i < |inputs| && inputs[i] == StoreLine(key, value)
    requires forall j :: i < j < |inputs| ==> !Stores(inputs[j], key)
    ensures TOOL_PREFIX <= RecallLine(key)
    ensures ToolResponse(library, MemoryOf(inputs), RecallLine(key)) == key + " = " + value
  {
    MemoryIsLatest(inputs, key, i, value);
    RecallLineResponse(library, MemoryOf(inputs), key);
  }

  /** Without a store line for the key, recall reports that it is missing. */
  lemma RecallOfNothing(library: Library, inputs: seq<string>, key: string)
    requires NoSpace(key) && Trim(key) == key && forall j :: 0 <= j < |inputs| ==> !Stores(inputs[j], key)
    ensures TOOL_PREFIX <= RecallLine(key)
    ensures ToolResponse(library, MemoryOf(inputs), RecallLine(key)) ==
            "Tool error: " + ("Key '" + key + "' not found in memory")
  {
    MemoryWithoutStore(inputs, key);
    RecallLineResponse(library, MemoryOf(inputs), key);
  }

  /** Trimming takes away white space only. */
  lemma {:induction false} TrimStartKeeps(s: string, c: char)
    requires !White(c)
    ensures multiset(TrimStart(s))[c] == multiset(s)[c]
  {
    if s != "" && White(s[0]) {
      TrimStartKeeps(s[1..], c);
      assert s == [s[0]] + s[1..];
    }
  }

  lemma {:induction false} TrimEndKeeps(s: string, c: char)
    requires !White(c)
    ensures multiset(TrimEnd(s))[c] == multiset(s)[c]
  {
    if s != "" && White(s[|s| - 1]) {
      TrimEndKeeps(s[..|s| - 1], c);
      assert s == s[..|s| - 1] + [s[|s| - 1]];
    }
  }

  /** No key in the memory contains a space: `store` takes the first word as the key. */
  lemma {:induction false} KeysHaveNoSpace(inputs: seq<string>, key: string)
    requires key in MemoryOf(inputs)
    ensures NoSpace(key)
    decreases |inputs|
  {
    var n := |inputs| - 1;
    MemoryChange(MemoryOf(inputs[..n]), inputs[n]);
    if key in MemoryOf(inputs[..n]) { KeysHaveNoSpace(inputs[..n], key); }
  }

  lemma JoinedAgain(a: string, b: string, c: string)
    ensures a + b + c == a + (b + c)
  {}

  lemma AnswerSplits(t: string, w: string)
    requires NoSpace(t)
    ensures SplitOnce(t + " = " + w) == (t, Some("= " + w))
  {
    JoinedAgain(t + " ", "= ", w);
    JoinedAgain(t, " ", "= ");
    assert " " + "= " == " = ";
    SplitJoined(t, "= " + w);
  }

  lemma LongAnswerSplits(key: string, value: string, first: string, rest: string)
    requires NoSpace(first) && key == first + " " + rest
    ensures SplitOnce(key + " = " + value) == (first, Some(rest + " = " + value))
  {
    JoinedAgain(first + " ", rest + " = ", value);
    JoinedAgain(first + " ", rest, " = ");
    SplitJoined(first, rest + " = " + value);
  }

  /** If a key without spaces answers for another one that trims to it, the two are the same. */
  lemma AnswerNamesKey(key: string, value: string, t: string, w: string)
    requires NoSpace(t) && t == Trim(key) && key + " = " + value == t + " = " + w
    ensures key == t
  {
    AnswerSplits(t, w);
    var parts := SplitOnce(key);
    if parts.1 == None {
      AnswerSplits(key, value);
    } else {
      LongAnswerSplits(key, value, parts.0, parts.1.value);
      EqualsSignKept(key, parts.0, parts.1.value, parts.1.value + " = " + value);
    }
  }

  /** A key of the form `t =...` does not trim to `t`. */
  lemma EqualsSignKept(key: string, t: string, rest: string, tail: string)
    requires key == t + " " + rest && |tail| > |rest| && tail[0] == '='
    requires forall i :: 0 <= i < |rest| ==> tail[i] == rest[i]
    requires rest == "" ==> tail[0] == ' '
    ensures Trim(key) != t
  {
    TrimStartKeeps(key, '=');
    TrimEndKeeps(TrimStart(key), '=');
    assert multiset(key) == multiset(t) + multiset(" ") + multiset(rest);
    assert rest != "" ==> rest[0] == '=' && rest[0] in multiset(rest);
  }

  /**
   * Storing under a key and recalling it gives the value back exactly for keys that contain
   * no space and equal their own trim: `store` ends the key at the first space and keeps it
   * as typed otherwise, `recall` trims it.
   */
  lemma RoundTripIff(inputs: seq<string>, key: string, value: string)
    ensures RecallResult(MemoryOf(inputs + [StoreLine(key, value)]), key) == Ok(key + " = " + value)
            <==> NoSpace(key) && Trim(key) == key
  {
    var run := inputs + [StoreLine(key, value)];
    if NoSpace(key) && Trim(key) == key {
      MemoryIsLatest(run, key, |inputs|, value);
    } else {
      var t := Trim(key);
      if t in MemoryOf(run) {
        KeysHaveNoSpace(run, t);
        if key + " = " + value == t + " = " + MemoryOf(run)[t] {
          AnswerNamesKey(key, value, t, MemoryOf(run)[t]);
        }
      }
    }
  }

  /** For example, a key that is a tab is stored but never found again. */
  lemma TabKeyIsLost(value: string)
    ensures RecallResult(MemoryOf([StoreLine("\t", value)]), "\t") != Ok("\t" + " = " + value)
  {
    assert TrimStart("\t") == "" && [] + [StoreLine("\t", value)] == [StoreLine("\t", value)];
    RoundTripIff([], "\t", value);
  }

  /** And a key of two words is stored under the first. */
  lemma TwoWordKeyIsLost(value: string)
    ensures RecallResult(MemoryOf([StoreLine("a b", value)]), "a b") != Ok("a b" + " = " + value)
  {
    assert "a b"[1] == ' ' && [] + [StoreLine("a b", value)] == [StoreLine("a b", value)];
    RoundTripIff([], "a b", value);
  }
}
