/** Building a flat object text of quoted pairs in a caller's buffer. */
module Json {
  const MINIMAL_SIZE: nat := 2
  const QUOTE: char := '"'

  datatype Pair = Pair(key: string, value: string)

  // ---------- C strings ----------

  /** The characters before the first NUL. */
  function Text(s: seq<char>): (t: string)
    ensures '\0' !in t && |t| <= |s|
    ensures '\0' in s ==> |t| < |s|
  {
    if s == [] || s[0] == '\0' then "" else [s[0]] + Text(s[1..])
  }

  lemma {:induction false} TextBefore(front: string, rest: seq<char>)
    requires '\0' !in front
    ensures Text(front + ['\0'] + rest) == front
  {
    var s := front + ['\0'] + rest;
    if front != "" {
      assert s[1..] == front[1..] + ['\0'] + rest;
      TextBefore(front[1..], rest);
    }
  }

  lemma {:induction false} TextIsFront(s: seq<char>)
    requires '\0' in s
    ensures s[..|Text(s)|] == Text(s) && s[|Text(s)|] == '\0'
  {
    if s[0] != '\0' {
      TextIsFront(s[1..]);
    }
  }

  /** strcpy to the end of the text: the text grows by the source, and nothing from end on changes. */
  method PutText(buffer: array<char>, index: nat, source: string, ghost end: nat)
    requires '\0' in buffer[..] && index == |Text(buffer[..])| && '\0' !in source
    requires index + |source| < end <= buffer.Length
    modifies buffer
    ensures '\0' in buffer[..] && Text(buffer[..]) == old(Text(buffer[..])) + source
    ensures buffer[end..] == old(buffer[end..])
  {
    ghost var was := Text(buffer[..]);
    TextIsFront(buffer[..]);
    assert buffer[..index] == was;
    forall i | 0 <= i < |source| {
      buffer[index + i] := source[i];
    }
    buffer[index + |source|] := '\0';
    ghost var rest := buffer[index + |source| + 1..];
    assert buffer[..] == was + source + ['\0'] + rest;
    TextBefore(was + source, rest);
  }

  // ---------- Json_startString, Json_addData, Json_endString ----------

  method StartString(buffer: array<char>, bufferSize: nat) returns (success: bool)
    requires bufferSize <= buffer.Length
    modifies buffer
    ensures success <==> bufferSize >= 2
    ensures success ==> '\0' in buffer[..] && Text(buffer[..]) == "{" && buffer[2..] == old(buffer[2..])
    ensures !success ==> buffer[..] == old(buffer[..])
  {
    success := false;
    if bufferSize >= MINIMAL_SIZE {
      buffer[0] := '{';
      buffer[1] := '\0';
      assert buffer[..] == "{" + ['\0'] + buffer[2..];
      TextBefore("{", buffer[2..]);
      success := true;
    }
  }

  predicate EndsQuoted(text: string) {
    text != "" && text[|text| - 1] == QUOTE
  }

  /** The text with the comma that a call appends before it looks at the size. */
  function Separated(text: string): string {
    if EndsQuoted(text) then text + "," else text
  }

  function Quoted(pair: Pair): (s: string)
    ensures |s| == |pair.key| + |pair.value| + 5 && EndsQuoted(s)
  {
    "\"" + pair.key + "\":\"" + pair.value + "\""
  }

  predicate Fits(text: string, size: nat, pair: Pair) {
    |Separated(text)| + |Quoted(pair)| + 1 <= size
  }

  /** The text after a call, accepted or not. */
  function Added(text: string, size: nat, pair: Pair): string {
    if Fits(text, size, pair) then Separated(text) + Quoted(pair) else Separated(text)
  }

  /** The five stores of an accepted pair. */
  method PutPair(buffer: array<char>, start: nat, key: string, value: string, ghost end: nat)
    requires '\0' in buffer[..] && start == |Text(buffer[..])| && '\0' !in key && '\0' !in value
    requires start + |key| + |value| + 5 < end <= buffer.Length
    modifies buffer
    ensures '\0' in buffer[..] && Text(buffer[..]) == old(Text(buffer[..])) + Quoted(Pair(key, value))
    ensures buffer[end..] == old(buffer[end..])
  {
    ghost var was := Text(buffer[..]);
    var index := start;
    PutText(buffer, index, "\"", end);
    index := index + 1;
    PutText(buffer, index, key, end);
    index := index + |key|;
    PutText(buffer, index, "\":\"", end);
    index := index + 3;
    PutText(buffer, index, value, end);
    index := index + |value|;
    PutText(buffer, index, "\"", end);
    assert Text(buffer[..]) == was + "\"" + key + "\":\"" + value + "\"";
    Regroup(was, key, value);
  }

  lemma Regroup(text: string, key: string, value: string)
    ensures text + "\"" + key + "\":\"" + value + "\"" == text + Quoted(Pair(key, value))
  {
  }

  /** A call that appends its comma to a text that fills the buffer stores its NUL one byte behind the buffer. */
  predicate Overruns(text: string, size: nat) {
    EndsQuoted(text) && |text| + 1 == size
  }

  /** That is the only way a text that fits is made to leave the buffer, whether the pair is accepted or not. */
  lemma AddedInsideIff(text: string, size: nat, pair: Pair)
    requires |text| + 1 <= size
    ensures |Added(text, size, pair)| + 1 <= size <==> !Overruns(text, size)
    ensures Overruns(text, size) ==> !Fits(text, size, pair) && |Added(text, size, pair)| == size
  {
  }

  /**
   * For any text, built by these calls or not: a comma goes between a closing quote and the pair, and a pair is
   * accepted exactly when the whole new text and its NUL fit.
   */
  lemma AddedAfter(front: string, last: char, size: nat, key: string, value: string)
    ensures var text, pair := front + [last], Pair(key, value);
            var pairText := "\"" + key + "\":\"" + value + "\"";
            var whole := (if last == '"' then text + "," else text) + pairText;
            && Fits(text, size, pair) == (|whole| < size)
            && Added(text, size, pair)
               == if |whole| < size then whole else if last == '"' then text + "," else text
  {
  }

  method AddData(buffer: array<char>, bufferSize: nat, key: string, value: string) returns (success: bool)
    requires '\0' in buffer[..] && Text(buffer[..]) != "" && '\0' !in key && '\0' !in value
    requires bufferSize <= buffer.Length && |Separated(Text(buffer[..]))| < buffer.Length
    modifies buffer
    ensures success <==> Fits(old(Text(buffer[..])), bufferSize, Pair(key, value))
    ensures '\0' in buffer[..] && Text(buffer[..]) == Added(old(Text(buffer[..])), bufferSize, Pair(key, value))
    ensures buffer[|Text(buffer[..])| + 1..] == old(buffer[..])[|Text(buffer[..])| + 1..]
    ensures |old(Text(buffer[..]))| < bufferSize ==>
              (|Text(buffer[..])| < bufferSize <==> !Overruns(old(Text(buffer[..])), bufferSize))
  {
    success := false;
    ghost var was := Text(buffer[..]);
    ghost var end := |Added(was, bufferSize, Pair(key, value))| + 1;
    var index := |Text(buffer[..])|;
    var totalSize := 5 + |key| + |value| + 1;
    TextIsFront(buffer[..]);
    if buffer[index - 1] == QUOTE && buffer[index] == '\0' {
      PutText(buffer, index, ",", end);
      index := index + 1;
    }
    assert Text(buffer[..]) == Separated(was);
    if totalSize + index <= bufferSize {
      PutPair(buffer, index, key, value, end);
      success := true;
    }
  }

  /** The text after Json_endString. */
  function Ended(text: string, size: nat): string {
    if |text| + MINIMAL_SIZE <= size then text + "}" else text
  }

  method EndString(buffer: array<char>, bufferSize: nat) returns (success: bool)
    requires '\0' in buffer[..] && bufferSize <= buffer.Length
    modifies buffer
    ensures success <==> |old(Text(buffer[..]))| + 2 <= bufferSize
    ensures '\0' in buffer[..]
    ensures Text(buffer[..]) == Ended(old(Text(buffer[..])), bufferSize)
    ensures buffer[|Text(buffer[..])| + 1..] == old(buffer[..])[|Text(buffer[..])| + 1..]
  {
    success := false;
    var index := |Text(buffer[..])|;
    if bufferSize >= MINIMAL_SIZE + index {
      PutText(buffer, index, "}", index + 2);
      success := true;
    }
  }

  // ---------- whole runs ----------

  /** The text after Json_startString and one Json_addData call per offered pair, with the same size each time. */
  function Built(offers: seq<Pair>, size: nat): (t: string)
    ensures t != ""
  {
    if offers == [] then "{" else Added(Built(offers[..|offers| - 1], size), size, offers[|offers| - 1])
  }

  /** Whether the last call was accepted. */
  predicate LastFits(offers: seq<Pair>, size: nat)
    requires offers != []
  {
    Fits(Built(offers[..|offers| - 1], size), size, offers[|offers| - 1])
  }

  /** The accepted pairs. */
  function Taken(offers: seq<Pair>, size: nat): seq<Pair> {
    if offers == [] then []
    else
      var before := Taken(offers[..|offers| - 1], size);
      if LastFits(offers, size) then before + [offers[|offers| - 1]] else before
  }

  function Joined(pairs: seq<Pair>): string {
    if pairs == [] then ""
    else
      var before := Joined(pairs[..|pairs| - 1]);
      (if before == "" then "" else before + ",") + Quoted(pairs[|pairs| - 1])
  }

  /** The text ends in a comma that a rejected call has left behind. */
  predicate Dangling(offers: seq<Pair>, size: nat) {
    offers != [] && !LastFits(offers, size) && Taken(offers, size) != []
  }

  lemma JoinedEnds(pairs: seq<Pair>)
    ensures if pairs == [] then Joined(pairs) == "" else EndsQuoted(Joined(pairs))
  {
  }

  function Comma(joined: string): string {
    if joined == "" then "" else ","
  }

  lemma JoinedSnoc(pairs: seq<Pair>, pair: Pair)
    ensures Joined(pairs + [pair]) == Joined(pairs) + Comma(Joined(pairs)) + Quoted(pair)
  {
    assert (pairs + [pair])[..|pairs|] == pairs;
  }

  lemma SeparatedJoined(joined: string, dangling: bool)
    requires joined == "" || EndsQuoted(joined)
    requires dangling ==> joined != ""
    ensures Separated("{" + joined + if dangling then "," else "") == "{" + joined + Comma(joined)
  {
    var text := "{" + joined;
    if joined != "" {
      assert text[|text| - 1] == joined[|joined| - 1];
    }
  }

  lemma OneMore(joined: string, quoted: string)
    ensures "{" + joined + Comma(joined) + quoted == "{" + (joined + Comma(joined) + quoted) + ""
  {
  }

  /**
   * Whatever was offered and rejected on the way, the text is the opening
   * brace and the accepted pairs joined by commas, and one more comma when the
   * last call was rejected after some pair was accepted.
   */
  lemma {:induction false} BuiltIsJoined(offers: seq<Pair>, size: nat)
    ensures Built(offers, size)
         == "{" + Joined(Taken(offers, size)) + if Dangling(offers, size) then "," else ""
  {
    if offers != [] {
      var front := offers[..|offers| - 1];
      var last, taken := offers[|offers| - 1], Taken(front, size);
      BuiltIsJoined(front, size);
      JoinedEnds(taken);
      SeparatedJoined(Joined(taken), Dangling(front, size));
      if LastFits(offers, size) {
        JoinedSnoc(taken, last);
        OneMore(Joined(taken), Quoted(last));
      }
    }
  }

  /**
   * Whatever was rejected before, a call is accepted exactly when the accepted pairs and the new one, joined, leave
   * room for the brace and the NUL.
   */
  lemma LastFitsIff(offers: seq<Pair>, size: nat)
    requires offers != []
    ensures LastFits(offers, size)
       <==> |Joined(Taken(offers[..|offers| - 1], size) + [offers[|offers| - 1]])| + 2 <= size
  {
    var front, last := offers[..|offers| - 1], offers[|offers| - 1];
    var taken := Taken(front, size);
    BuiltIsJoined(front, size);
    JoinedEnds(taken);
    SeparatedJoined(Joined(taken), Dangling(front, size));
    JoinedSnoc(taken, last);
  }

  lemma {:induction false} TakenWithin(offers: seq<Pair>, size: nat)
    requires size >= MINIMAL_SIZE
    ensures |Joined(Taken(offers, size))| + 2 <= size
  {
    if offers != [] {
      TakenWithin(offers[..|offers| - 1], size);
      LastFitsIff(offers, size);
    }
  }

  /**
   * Over a whole run the text and its NUL stay within the given size, except in one case, where they take one byte
   * more: a comma dangles behind accepted pairs that fill the buffer.
   */
  lemma BuiltInsideIff(offers: seq<Pair>, size: nat)
    requires size >= MINIMAL_SIZE
    ensures |Built(offers, size)| + 1 <= size
       <==> !(Dangling(offers, size) && |Joined(Taken(offers, size))| + 2 == size)
    ensures |Built(offers, size)| <= size
  {
    BuiltIsJoined(offers, size);
    TakenWithin(offers, size);
  }

  /** Nine bytes hold {"a":"b" and its NUL; the rejected second pair leaves a comma there and the NUL behind. */
  lemma CommaOutside()
    ensures Built([Pair("a", "b"), Pair("c", "d")], 9) == "{\"a\":\"b\","
    ensures |Built([Pair("a", "b"), Pair("c", "d")], 9)| == 9
  {
    var one, two := [Pair("a", "b")], [Pair("a", "b"), Pair("c", "d")];
    assert one[..0] == [] && two[..1] == one;
    assert Built([], 9) == "{";
    assert Built(one, 9) == "{\"a\":\"b\"" by {
      assert Quoted(Pair("a", "b")) == "\"a\":\"b\"";
    }
  }

  lemma {:induction false} TakenAtMost(offers: seq<Pair>, size: nat)
    ensures |Taken(offers, size)| <= |offers|
  {
    if offers != [] {
      TakenAtMost(offers[..|offers| - 1], size);
    }
  }

  /** Every pair is accepted exactly when the text without the closing brace, and its NUL, fit. */
  lemma {:induction false} AllTakenIff(offers: seq<Pair>, size: nat)
    requires size >= MINIMAL_SIZE
    ensures Taken(offers, size) == offers <==> |Joined(offers)| + 2 <= size
  {
    if offers != [] {
      var front, last := offers[..|offers| - 1], offers[|offers| - 1];
      assert offers == front + [last];
      JoinedSnoc(front, last);
      AllTakenIff(front, size);
      TakenAtMost(front, size);
      LastFitsIff(offers, size);
      if Taken(offers, size) == offers {
        assert Taken(offers, size)[..|front|] == front;
      }
    }
  }

  /** When all are accepted, ending the text gives the object, exactly when the brace and the NUL still fit. */
  lemma AllTakenText(offers: seq<Pair>, size: nat)
    requires Taken(offers, size) == offers
    ensures Built(offers, size) == "{" + Joined(offers)
    ensures Ended(Built(offers, size), size)
         == "{" + Joined(offers) + if |Joined(offers)| + 3 <= size then "}" else ""
  {
    BuiltIsJoined(offers, size);
    if offers != [] {
      TakenAtMost(offers[..|offers| - 1], size);
    }
  }
}
