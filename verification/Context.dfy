/**
 * `src/agent/context.rs`: the agent's bounded working memory.  When a message does
 * not fit, the oldest messages other than system prompts are evicted.
 */
module Context {
  import opened Basics

  datatype Role = System | User | Assistant | Tool

  datatype Message = Message(role: Role, content: string, tokenCount: nat)

  /** The length in bytes of a string's UTF-8 encoding. */
  function Utf8Length(text: string): nat {
    if text == "" then 0
    else (var c := text[0] as int;
          if c < 0x80 then 1 else if c < 0x800 then 2 else if c < 0x1_0000 then 3 else 4)
         + Utf8Length(text[1..])
  }

  lemma {:induction false} Utf8LengthAppend(a: string, b: string)
    ensures Utf8Length(a + b) == Utf8Length(a) + Utf8Length(b)
  {
    if a == "" {
      assert a + b == b;
    } else {
      Utf8LengthAppend(a[1..], b);
      assert (a + b)[1..] == a[1..] + b;
    }
  }

  predicate Ascii(text: string) { forall i :: 0 <= i < |text| ==> text[i] as int < 0x80 }

  lemma {:induction false} Utf8LengthAscii(text: string)
    requires Ascii(text)
    ensures Utf8Length(text) == |text|
  {
    if text != "" { Utf8LengthAscii(text[1..]); }
  }

  /** How many bits of a code point a UTF-8 sequence of `n` bytes carries (section 3 of RFC 3629). */
  function PayloadBits(n: nat): nat { if n == 1 then 7 else 5 * n + 1 }

  function PowerOfTwo(n: nat): nat { if n == 0 then 1 else 2 * PowerOfTwo(n - 1) }

  lemma Powers()
    ensures PowerOfTwo(7) == 0x80 && PowerOfTwo(11) == 0x800
    ensures PowerOfTwo(16) == 0x1_0000 && PowerOfTwo(21) == 0x20_0000
  {
    assert PowerOfTwo(11) == 0x10 * PowerOfTwo(7);
    assert PowerOfTwo(16) == 0x20 * PowerOfTwo(11);
    assert PowerOfTwo(21) == 0x20 * PowerOfTwo(16);
  }

  /** Each character takes the fewest bytes that carry its code point. */
  lemma CharacterWidth(c: char)
    ensures var n := Utf8Length([c]);
            && 1 <= n <= 4 && c as int < PowerOfTwo(PayloadBits(n))
            && (n > 1 ==> PowerOfTwo(PayloadBits(n - 1)) <= c as int)
  {
    Powers();
    assert Utf8Length([c][1..]) == 0;
  }

  /** A token stands for four bytes; what is shorter costs one token too. */
  ghost predicate Costs(n: int, bytes: nat) {
    4 * n <= bytes < 4 * (n + 1) || (n == 1 && bytes < 4)
  }

  function EstimateTokens(text: string): (n: nat)
    ensures Costs(n, Utf8Length(text))
  {
    var count := Utf8Length(text) / 4;
    if count == 0 then 1 else count
  }

  function NewMessage(role: Role, content: string): Message {
    Message(role, content, EstimateTokens(content))
  }

  ghost function Tokens(ms: seq<Message>): nat {
    if ms == [] then 0 else ms[0].tokenCount + Tokens(ms[1..])
  }

  ghost function Bytes(ms: seq<Message>): nat {
    if ms == [] then 0 else Utf8Length(ms[0].content) + Bytes(ms[1..])
  }

  /** Every message carries the cost of its content. */
  ghost predicate Counted(ms: seq<Message>) {
    forall i :: 0 <= i < |ms| ==> Costs(ms[i].tokenCount, Utf8Length(ms[i].content))
  }

  /** What a number of tokens means in bytes, up to four per message. */
  lemma {:induction false} TokensInBytes(ms: seq<Message>)
    requires Counted(ms)
    ensures 4 * Tokens(ms) <= Bytes(ms) + 4 * |ms| && Bytes(ms) <= 4 * Tokens(ms) + 3 * |ms|
  {
    if ms != [] { TokensInBytes(ms[1..]); }
  }

  /** The number of messages that may be evicted. */
  ghost function Evictable(ms: seq<Message>): nat {
    if ms == [] then 0 else (if ms[0].role == System then 0 else 1) + Evictable(ms[1..])
  }

  /** The history without its `cut` oldest non-system messages, in the original order. */
  ghost function Retained(history: seq<Message>, cut: nat): seq<Message> {
    if history == [] then []
    else if history[0].role != System && cut > 0 then Retained(history[1..], cut - 1)
    else [history[0]] + Retained(history[1..], cut)
  }

  ghost predicate FirstEvictable(ms: seq<Message>, idx: int) {
    && 0 <= idx < |ms| && ms[idx].role != System
    && forall i :: 0 <= i < idx ==> ms[i].role == System
  }

  // ------------------------------------------------------------------
  // Facts about retained histories
  // ------------------------------------------------------------------

  lemma {:induction false} RetainedAll(h: seq<Message>)
    ensures Retained(h, 0) == h
  {
    if h != [] { RetainedAll(h[1..]); }
  }

  /** Nothing is lost but the cut messages. */
  lemma {:induction false} RetainedLength(h: seq<Message>, cut: nat)
    requires cut <= Evictable(h)
    ensures |Retained(h, cut)| + cut == |h|
    ensures Evictable(Retained(h, cut)) + cut == Evictable(h)
  {
    if h != [] {
      RetainedLength(h[1..], if h[0].role != System && cut > 0 then cut - 1 else cut);
    }
  }

  lemma {:induction false} RetainedSnoc(h: seq<Message>, cut: nat, m: Message)
    requires cut <= Evictable(h)
    ensures Retained(h + [m], cut) == Retained(h, cut) + [m]
    ensures Evictable(h + [m]) == Evictable(h) + (if m.role == System then 0 else 1)
  {
    if h == [] {
      assert h + [m] == [m];
    } else {
      assert (h + [m])[1..] == h[1..] + [m];
      RetainedSnoc(h[1..], if h[0].role != System && cut > 0 then cut - 1 else cut, m);
    }
  }

  lemma {:induction false} TokensAppend(a: seq<Message>, b: seq<Message>)
    ensures Tokens(a + b) == Tokens(a) + Tokens(b)
  {
    if a == [] {
      assert a + b == b;
    } else {
      assert (a + b)[1..] == a[1..] + b;
      TokensAppend(a[1..], b);
    }
  }

  lemma TokensWithout(ms: seq<Message>, idx: nat)
    requires idx < |ms|
    ensures Tokens(ms) == Tokens(ms[..idx] + ms[idx + 1..]) + ms[idx].tokenCount
  {
    var a, x, b := ms[..idx], ms[idx], ms[idx + 1..];
    assert ms == a + ([x] + b);
    TokensBetween(a, x, b);
  }

  lemma TokensBetween(a: seq<Message>, x: Message, b: seq<Message>)
    ensures Tokens(a + ([x] + b)) == Tokens(a + b) + x.tokenCount
  {
    TokensAppend(a, [x] + b);
    TokensAppend(a, b);
    assert ([x] + b)[1..] == b;
  }

  /** All remaining messages are system prompts exactly when nothing is evictable. */
  lemma {:induction false} EvictableZero(ms: seq<Message>)
    ensures Evictable(ms) == 0 <==> forall i :: 0 <= i < |ms| ==> ms[i].role == System
  {
    if ms != [] {
      EvictableZero(ms[1..]);
      assert forall i :: 1 <= i < |ms| ==> ms[i] == ms[1..][i - 1];
    }
  }

  ghost function Systems(ms: seq<Message>): seq<Message> {
    if ms == [] then [] else (if ms[0].role == System then [ms[0]] else []) + Systems(ms[1..])
  }

  ghost function Others(ms: seq<Message>): seq<Message> {
    if ms == [] then [] else (if ms[0].role == System then [] else [ms[0]]) + Others(ms[1..])
  }

  /** A window keeps every system prompt, and of the rest exactly the most recent ones. */
  lemma {:induction false} RetainedMeaning(h: seq<Message>, cut: nat)
    requires cut <= Evictable(h)
    ensures Systems(Retained(h, cut)) == Systems(h)
    ensures |Others(h)| == Evictable(h) && Others(Retained(h, cut)) == Others(h)[cut..]
  {
    if h != [] {
      RetainedMeaning(h[1..], if h[0].role != System && cut > 0 then cut - 1 else cut);
      if h[0].role == System {
        assert Retained(h, cut) == [h[0]] + Retained(h[1..], cut);
      } else if cut == 0 {
        RetainedAll(h);
      }
    }
  }

  lemma RemoveBehind(m: Message, rest: seq<Message>, k: nat)
    requires k < |rest|
    ensures ([m] + rest)[..k + 1] + ([m] + rest)[k + 2..] == [m] + (rest[..k] + rest[k + 1..])
  {}

  /** Evicting the oldest non-system message of the window moves the cut by one. */
  lemma {:induction false} EvictionMovesCut(h: seq<Message>, cut: nat, idx: nat)
    requires cut <= Evictable(h) && FirstEvictable(Retained(h, cut), idx)
    ensures cut < Evictable(h)
    ensures Retained(h, cut + 1) == Retained(h, cut)[..idx] + Retained(h, cut)[idx + 1..]
  {
    var ms := Retained(h, cut);
    if h[0].role != System && cut > 0 {
      EvictionMovesCut(h[1..], cut - 1, idx);
    } else if h[0].role == System {
      var rest := Retained(h[1..], cut);
      assert ms == [h[0]] + rest && ms[0] == h[0];
      assert idx > 0 && rest[idx - 1] == ms[idx];
      assert forall i :: 0 <= i < idx - 1 ==> rest[i] == ms[i + 1];
      EvictionMovesCut(h[1..], cut, idx - 1);
      RemoveBehind(h[0], rest, idx - 1);
      assert Retained(h, cut + 1) == [h[0]] + Retained(h[1..], cut + 1);
    } else {
      assert ms[0] == h[0] && idx == 0;
      RetainedAll(h[1..]);
      assert Retained(h, 1) == Retained(h[1..], 0);
    }
  }

  /** The least cut from `cut` on that leaves room for `tokens` more, or the whole if none does. */
  ghost function CutFor(h: seq<Message>, cut: nat, tokens: nat, max: nat): (c: nat)
    requires cut <= Evictable(h)
    ensures cut <= c <= Evictable(h)
    ensures forall k: nat :: cut <= k < c ==> Tokens(Retained(h, k)) + tokens > max
    ensures Tokens(Retained(h, c)) + tokens <= max || c == Evictable(h)
    decreases Evictable(h) - cut
  {
    if cut == Evictable(h) || Tokens(Retained(h, cut)) + tokens <= max then cut else CutFor(h, cut + 1, tokens, max)
  }

  lemma {:induction false} RetainedCounted(h: seq<Message>, cut: nat)
    requires Counted(h)
    ensures Counted(Retained(h, cut))
  {
    if h != [] {
      RetainedCounted(h[1..], if h[0].role != System && cut > 0 then cut - 1 else cut);
    }
  }

  /** Of three messages of 8000 ASCII characters, a window of 4096 tokens keeps two. */
  lemma ThirdEvictsFirst(a: string, b: string, c: string)
    requires |a| == |b| == |c| == 8000 && Ascii(a) && Ascii(b) && Ascii(c)
    ensures EstimateTokens(a) == EstimateTokens(b) == EstimateTokens(c) == 2000
    ensures CutFor([NewMessage(User, a), NewMessage(User, b)], 0, EstimateTokens(c), 4096) == 1
  {
    Utf8LengthAscii(a);
    Utf8LengthAscii(b);
    Utf8LengthAscii(c);
    var x, y := NewMessage(User, a), NewMessage(User, b);
    assert [x, y][1..] == [y] && [y][1..] == [];
    assert Evictable([x, y]) == 2 && Evictable([y]) == 1;
    RetainedAll([x, y]);
    RetainedAll([y]);
    assert Retained([x, y], 1) == [y];
    assert Tokens([x, y]) == 4000 && Tokens([y]) == 2000;
    var cut := CutFor([x, y], 0, 2000, 4096);
    assert cut > 0;
  }

  // ------------------------------------------------------------------
  // The window
  // ------------------------------------------------------------------

  function SaturatingSub(a: nat, b: nat): nat { if a < b then 0 else a - b }

  class ContextWindow {
    const maxTokens: nat
    var messages: seq<Message>
    var currentTokens: nat
    var totalEvicted: nat
    /** Everything ever pushed. */
    ghost var history: seq<Message>

    /** The window is the history minus its `totalEvicted` oldest non-system messages. */
    ghost predicate Valid()
      reads this
    {
      && totalEvicted <= Evictable(history)
      && messages == Retained(history, totalEvicted)
      && currentTokens == Tokens(messages) && Counted(history)
    }

    constructor (maxTokens: nat)
      ensures Valid() && history == [] && messages == [] && this.maxTokens == maxTokens
    {
      this.maxTokens := maxTokens;
      messages, currentTokens, totalEvicted, history := [], 0, 0, [];
    }

    method FindEvictable() returns (found: bool, idx: nat)
      requires Valid()
      ensures found ==> FirstEvictable(messages, idx)
      ensures !found ==> forall i :: 0 <= i < |messages| ==> messages[i].role == System
    {
      idx := 0;
      while idx < |messages|
        invariant idx <= |messages|
        invariant forall i :: 0 <= i < idx ==> messages[i].role == System
      {
        if messages[idx].role != System {
          return true, idx;
        }
        idx := idx + 1;
      }
      return false, 0;
    }

    /** Removes the oldest non-system message; the subtraction never saturates. */
    method EvictOldest() returns (r: Option<Message>)
      requires Valid()
      modifies `messages, `currentTokens
      ensures r == None ==> Valid() && totalEvicted == Evictable(history) && unchanged(this)
      ensures r.Some? ==> r.value.role != System && totalEvicted < Evictable(history)
      ensures r.Some? ==> messages == Retained(history, totalEvicted + 1) && currentTokens == Tokens(messages)
      ensures r.Some? ==> old(currentTokens) == currentTokens + r.value.tokenCount
    {
      RetainedLength(history, totalEvicted);
      EvictableZero(messages);
      var found, idx := FindEvictable();
      if !found {
        return None;
      }
      EvictionMovesCut(history, totalEvicted, idx);
      TokensWithout(messages, idx);
      var msg := messages[idx];
      messages := messages[..idx] + messages[idx + 1..];
      currentTokens := SaturatingSub(currentTokens, msg.tokenCount);
      return Some(msg);
    }

    /** The eviction loop. */
    method MakeRoom(tokenCount: nat)
      requires Valid()
      modifies `messages, `currentTokens, `totalEvicted
      ensures Valid() && totalEvicted == CutFor(history, old(totalEvicted), tokenCount, maxTokens)
    {
      while currentTokens + tokenCount > maxTokens
        invariant Valid()
        invariant CutFor(history, totalEvicted, tokenCount, maxTokens) ==
                  CutFor(history, old(totalEvicted), tokenCount, maxTokens)
        decreases Evictable(history) - totalEvicted
      {
        var evicted := EvictOldest();
        if evicted == None {
          break;
        }
        totalEvicted := totalEvicted + 1;
      }
    }

    /**
     * Adds a message after evicting the fewest oldest non-system messages that make room
     * for it, or all of them if no number suffices.
     */
    method PushMessage(role: Role, content: string)
      requires Valid()
      modifies this
      ensures Valid() && history == old(history) + [NewMessage(role, content)]
      ensures totalEvicted == CutFor(old(history), old(totalEvicted), EstimateTokens(content), maxTokens)
      ensures messages == Retained(old(history), totalEvicted) + [NewMessage(role, content)]
      ensures currentTokens <= maxTokens || totalEvicted == Evictable(old(history))
      ensures currentTokens <= maxTokens || forall i :: 0 <= i < |messages| - 1 ==> messages[i].role == System
      ensures |messages| + totalEvicted == |history|
      ensures var last := messages[|messages| - 1]; last.role == role && last.content == content
      ensures Costs(currentTokens - Tokens(Retained(old(history), totalEvicted)), Utf8Length(content))
      ensures currentTokens <= maxTokens ==> Bytes(messages) <= 4 * maxTokens + 3 * |messages|
    {
      var tokenCount := EstimateTokens(content);
      MakeRoom(tokenCount);
      var m := Message(role, content, tokenCount);
      RetainedLength(history, totalEvicted);
      EvictableZero(messages);
      RetainedSnoc(history, totalEvicted, m);
      TokensAppend(messages, [m]);
      currentTokens := currentTokens + tokenCount;
      RetainedCounted(history, totalEvicted);
      messages := messages + [m];
      history := history + [m];
      TokensInBytes(messages);
    }
  }
}
