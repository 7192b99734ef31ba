/** Looking a key up in a text, and what that finds in a text of quoted pairs. */
module JsonFind {
  import opened Common
  import opened Json
  import opened Overlay

  // ---------- Json_findByKey ----------

  /** The index of the first quote, or the length. */
  function Quote(s: string): (n: nat)
    ensures n <= |s| && QUOTE !in s[..n] && (n < |s| ==> s[n] == QUOTE)
  {
    if s == "" || s[0] == QUOTE then 0 else 1 + Quote(s[1..])
  }

  /** Everything before the closing quote, if it and a NUL fit. */
  function Closed(s: string, max: nat): Option<string> {
    var n := Quote(s);
    if n < |s| && n < max then Some(s[..n]) else None
  }

  /** What follows the next quote. */
  function AfterQuote(s: string): string {
    if Quote(s) < |s| then s[Quote(s) + 1..] else ""
  }

  /** What follows the quote after the first occurrence of the key, if that quote is there. */
  function AfterKey(s: string, key: string): Option<string> {
    if |s| <= |key| then None
    else if key <= s then (if s[|key|] == QUOTE then Some(s[|key| + 1..]) else None)
    else AfterKey(s[1..], key)
  }

  /** The result for a text. */
  function Find(s: string, key: string, max: nat): Option<string> {
    match AfterKey(s, key)
    case None => None
    case Some(rest) => Closed(AfterQuote(rest), max)
  }

  /** The characters copied to the value, whether or not a closing quote follows them. */
  function Part(s: string, max: nat): string {
    if Quote(s) < max then s[..Quote(s)] else s[..max]
  }

  /** The characters stored in all: those copied, and the NUL after a whole value. */
  function Stored(s: string, max: nat): string {
    if Closed(s, max).Some? then Part(s, max) + ['\0'] else Part(s, max)
  }

  /** The characters stored by a search: when it succeeds, the value found and its NUL. */
  function FindStored(s: string, key: string, max: nat): (r: string)
    ensures Find(s, key, max).Some? ==> r == Find(s, key, max).value + ['\0']
  {
    match AfterKey(s, key)
    case None => ""
    case Some(rest) => Stored(AfterQuote(rest), max)
  }

  /** The loop over candidate positions. */
  method SearchKey(text: string, key: string) returns (success: bool, index: nat)
    requires |text| < UINT32_MODULUS - 1
    ensures success <==> AfterKey(text, key).Some?
    ensures success ==> index + |key| < |text| && AfterKey(text, key) == Some(text[index + |key| + 1..])
  {
    success := false;
    var maxSearchSize := 0;
    if |text| > |key| {
      maxSearchSize := (|text| - |key|) % UINT32_MODULUS;
    }
    index := 0;
    ghost var goal := AfterKey(text, key);
    while index < maxSearchSize
      invariant 0 <= index <= maxSearchSize && index <= |text|
      invariant goal == AfterKey(text[index..], key)
      invariant !success
    {
      if text[index..index + |key|] == key {
        assert key <= text[index..];
        if text[index + |key|] == QUOTE {
          success := true;
        }
        break;
      }
      assert text[index..][..|key|] == text[index..index + |key|];
      assert text[index..][1..] == text[index + 1..];
      index := index + 1;
    }
    if success {
      assert text[index..][|key| + 1..] == text[index + |key| + 1..];
    }
  }

  lemma QuoteAt(s: string, n: nat)
    requires n <= |s| && QUOTE !in s[..n] && (n < |s| ==> s[n] == QUOTE)
    ensures Quote(s) == n
  {
  }

  lemma ClosedAt(s: string, n: nat, max: nat)
    requires n < |s| && n < max && QUOTE !in s[..n] && s[n] == QUOTE
    ensures Closed(s, max) == Some(s[..n]) && Part(s, max) == s[..n]
  {
    QuoteAt(s, n);
  }

  lemma NotClosed(s: string, n: nat, max: nat)
    requires n <= |s| && n <= max && QUOTE !in s[..n] && (n == |s| || n == max)
    ensures Closed(s, max) == None && Part(s, max) == s[..n]
  {
    if n == |s| {
      QuoteAt(s, n);
    }
  }

  /** The loop to the quote that opens the value. */
  method SkipToQuote(text: string, start: nat) returns (index: nat)
    requires start <= |text|
    ensures index == start + Quote(text[start..]) <= |text|
  {
    index := start;
    while index < |text|
      invariant start <= index <= |text|
      invariant QUOTE !in text[start..index]
    {
      if text[index] == QUOTE {
        break;
      }
      index := index + 1;
    }
    assert text[start..][..index - start] == text[start..index];
    QuoteAt(text[start..], index - start);
  }

  /** One store of the copying loop. */
  method StoreNext(value: array<char>, at: nat, x: char, ghost was: seq<char>, ghost front: string)
    requires at == |front| < value.Length && |was| == value.Length && value[..] == Overlaid(was, front)
    modifies value
    ensures value[..] == Overlaid(was, front + [x])
  {
    OverlaidThenSet(was, front, x);
    value[at] := x;
  }

  method StoreAgain(value: array<char>, at: nat, x: char, ghost was: seq<char>, ghost front: string, ghost y: char)
    requires at == |front| < value.Length && |was| == value.Length && value[..] == Overlaid(was, front + [y])
    modifies value
    ensures value[..] == Overlaid(was, front + [x])
  {
    value[at] := x;
  }

  /** The loop that copies the value. */
  method CopyValue(text: string, start: nat, value: array<char>, maxValueSize: nat) returns (success: bool)
    requires start <= |text| && maxValueSize <= value.Length
    modifies value
    ensures success <==> Closed(text[start..], maxValueSize).Some?
    ensures |Stored(text[start..], maxValueSize)| <= value.Length
    ensures value[..] == Overlaid(old(value[..]), Stored(text[start..], maxValueSize))
  {
    success := false;
    ghost var rest, was := text[start..], value[..];
    var index, valueSize := start, 0;
    while index < |text| && valueSize < maxValueSize
      invariant index == start + valueSize <= |text| && valueSize <= maxValueSize
      invariant value[..] == Overlaid(was, rest[..valueSize])
      invariant QUOTE !in rest[..valueSize]
      invariant !success
    {
      StoreNext(value, valueSize, text[index], was, rest[..valueSize]);
      if text[index] == QUOTE {
        StoreAgain(value, valueSize, '\0', was, rest[..valueSize], text[index]);
        success := true;
        break;
      }
      assert rest[..valueSize] + [text[index]] == rest[..valueSize + 1];
      valueSize := valueSize + 1;
      index := index + 1;
    }
    if success {
      ClosedAt(rest, valueSize, maxValueSize);
    } else {
      NotClosed(rest, valueSize, maxValueSize);
    }
  }

  /** Where the value starts, in terms of the whole text. */
  lemma ValueStart(text: string, start: nat, quote: nat)
    requires start <= |text| && quote == start + Quote(text[start..])
    ensures AfterQuote(text[start..]) == if quote < |text| then text[quote + 1..] else ""
  {
    if quote < |text| {
      assert text[start..][quote - start + 1..] == text[quote + 1..];
    }
  }

  lemma NothingClosed(max: nat, was: seq<char>)
    ensures Closed("", max) == None && Stored("", max) == "" && Overlaid(was, "") == was
  {
  }

  /** The part of the search after the key's closing quote. */
  method TakeValue(text: string, start: nat, value: array<char>, maxValueSize: nat) returns (success: bool)
    requires start <= |text| < UINT32_MODULUS - 1 && maxValueSize <= value.Length
    modifies value
    ensures success <==> Closed(AfterQuote(text[start..]), maxValueSize).Some?
    ensures |Stored(AfterQuote(text[start..]), maxValueSize)| <= value.Length
    ensures value[..] == Overlaid(old(value[..]), Stored(AfterQuote(text[start..]), maxValueSize))
  {
    ghost var v := AfterQuote(text[start..]);
    success := false;
    var index := SkipToQuote(text, start);
    ValueStart(text, start, index);
    assert v == if index < |text| then text[index + 1..] else "";
    index := (index + 1) % UINT32_MODULUS;
    assert v == if index <= |text| then text[index..] else "";
    if index <= |text| {
      success := CopyValue(text, index, value, maxValueSize);
    } else {
      NothingClosed(maxValueSize, value[..]);
    }
  }

  lemma FindFrom(text: string, key: string, max: nat, rest: string)
    requires AfterKey(text, key) == Some(rest)
    ensures Find(text, key, max) == Closed(AfterQuote(rest), max)
    ensures FindStored(text, key, max) == Stored(AfterQuote(rest), max)
  {
  }

  method FindByKey(text: string, key: string, value: array<char>, maxValueSize: nat) returns (success: bool)
    requires |text| < UINT32_MODULUS - 1 && maxValueSize <= value.Length
    modifies value
    ensures success <==> Find(text, key, maxValueSize).Some?
    ensures |FindStored(text, key, maxValueSize)| <= value.Length
    ensures value[..] == Overlaid(old(value[..]), FindStored(text, key, maxValueSize))
  {
    var index;
    success, index := SearchKey(text, key);
    if success {
      var start := (index + |key| + 1) % UINT32_MODULUS;
      assert start == index + |key| + 1;
      FindFrom(text, key, maxValueSize, text[start..]);
      success := TakeValue(text, start, value, maxValueSize);
    } else {
      assert FindStored(text, key, maxValueSize) == "";
      assert Overlaid(value[..], "") == value[..];
    }
  }
}
