/** What a lookup finds in a text cut at its quotes, and in the texts that the builder makes. */
module JsonTheory {
  import opened Common
  import opened Json
  import opened JsonFind

  predicate QuoteFree(s: string) {
    QUOTE !in s
  }

  predicate AllQuoteFree(pieces: seq<string>) {
    forall i :: 0 <= i < |pieces| ==> QuoteFree(pieces[i])
  }

  /** The pieces with a quote between each two. */
  function Glued(pieces: seq<string>): string {
    if pieces == [] then ""
    else if |pieces| == 1 then pieces[0]
    else pieces[0] + "\"" + Glued(pieces[1..])
  }

  predicate Contains(s: string, key: string) {
    |key| <= |s| && (key <= s || (s != "" && Contains(s[1..], key)))
  }

  /** What follows the first occurrence. */
  function After(s: string, key: string): string
    requires Contains(s, key)
  {
    if key <= s then s[|key|..] else After(s[1..], key)
  }

  /** The first piece that contains the key. */
  function Hit(pieces: seq<string>, key: string): (m: nat)
    ensures m <= |pieces| && (m < |pieces| ==> Contains(pieces[m], key))
    ensures forall k :: 0 <= k < m ==> !Contains(pieces[k], key)
  {
    if pieces == [] || Contains(pieces[0], key) then 0 else 1 + Hit(pieces[1..], key)
  }

  /**
   * The search on pieces: the first piece that contains the key must have it
   * at its end, and the next but one is the value, if a piece follows it and
   * it fits.
   */
  function PieceFound(pieces: seq<string>, key: string, max: nat): Option<string> {
    var m := Hit(pieces, key);
    if m + 3 < |pieces| && After(pieces[m], key) == "" && |pieces[m + 2]| < max then Some(pieces[m + 2]) else None
  }

  // ---------- the search on the text is the search on its pieces ----------

  lemma NoQuoteNoKey(s: string, key: string)
    requires QuoteFree(s)
    ensures AfterKey(s, key) == None
  {
    if |s| > |key| && !(key <= s) {
      NoQuoteNoKey(s[1..], key);
    }
  }

  lemma PrefixOfPiece(piece: string, rest: string, key: string)
    requires QuoteFree(key) && key <= piece + "\"" + rest
    ensures key <= piece
  {
    var s := piece + "\"" + rest;
    assert s[|piece|] == QUOTE;
    if |key| > |piece| {
      assert false;
    }
  }

  lemma {:induction false} SkipPiece(piece: string, rest: string, key: string)
    requires QuoteFree(key) && !Contains(piece, key)
    ensures AfterKey(piece + "\"" + rest, key) == AfterKey(rest, key)
  {
    var s := piece + "\"" + rest;
    if key <= s {
      PrefixOfPiece(piece, rest, key);
    }
    if piece == "" {
      assert s[1..] == rest;
    } else {
      assert s[1..] == piece[1..] + "\"" + rest;
      SkipPiece(piece[1..], rest, key);
    }
  }

  lemma {:induction false} HitPiece(piece: string, rest: string, key: string)
    requires QuoteFree(piece) && QuoteFree(key) && Contains(piece, key)
    ensures AfterKey(piece + "\"" + rest, key) == if After(piece, key) == "" then Some(rest) else None
  {
    var s := piece + "\"" + rest;
    if key <= piece {
      if |key| == |piece| {
        assert s[|key| + 1..] == rest;
      } else {
        assert s[|key|] == piece[|key|];
      }
    } else {
      if key <= s {
        PrefixOfPiece(piece, rest, key);
      }
      assert s[1..] == piece[1..] + "\"" + rest;
      HitPiece(piece[1..], rest, key);
    }
  }

  lemma {:induction false} AfterKeyInPieces(pieces: seq<string>, key: string)
    requires AllQuoteFree(pieces) && QuoteFree(key)
    ensures var m := Hit(pieces, key);
            AfterKey(Glued(pieces), key)
            == if m + 1 < |pieces| && After(pieces[m], key) == "" then Some(Glued(pieces[m + 1..])) else None
  {
    if |pieces| <= 1 {
      NoQuoteNoKey(Glued(pieces), key);
    } else if Contains(pieces[0], key) {
      HitPiece(pieces[0], Glued(pieces[1..]), key);
    } else {
      SkipPiece(pieces[0], Glued(pieces[1..]), key);
      AfterKeyInPieces(pieces[1..], key);
      var m := Hit(pieces, key);
      if m < |pieces| {
        assert pieces[1..][m..] == pieces[m + 1..];
      }
    }
  }

  lemma QuoteOfPieces(pieces: seq<string>)
    requires pieces != [] && AllQuoteFree(pieces)
    ensures Quote(Glued(pieces)) == |pieces[0]|
    ensures |pieces| > 1 ==> Glued(pieces)[|pieces[0]| + 1..] == Glued(pieces[1..])
    ensures (|pieces| == 1 ==> Glued(pieces) == pieces[0]) && pieces[0] <= Glued(pieces)
    ensures |pieces| > 1 ==> |pieces[0]| < |Glued(pieces)|
  {
    QuoteAt(Glued(pieces), |pieces[0]|);
  }

  lemma ClosedPieces(pieces: seq<string>, max: nat)
    requires AllQuoteFree(pieces)
    ensures Closed(Glued(pieces), max) == if |pieces| > 1 && |pieces[0]| < max then Some(pieces[0]) else None
  {
    if pieces != [] {
      QuoteOfPieces(pieces);
      assert Glued(pieces)[..|pieces[0]|] == pieces[0];
    }
  }

  lemma AfterQuotePieces(pieces: seq<string>)
    requires pieces != [] && AllQuoteFree(pieces)
    ensures AfterQuote(Glued(pieces)) == Glued(pieces[1..])
  {
    QuoteOfPieces(pieces);
  }

  /** For any text, cut at all its quotes, and any key without a quote. */
  lemma FindIsPieceFound(pieces: seq<string>, key: string, max: nat)
    requires AllQuoteFree(pieces) && QuoteFree(key)
    ensures Find(Glued(pieces), key, max) == PieceFound(pieces, key, max)
  {
    AfterKeyInPieces(pieces, key);
    var m := Hit(pieces, key);
    if m + 1 < |pieces| && After(pieces[m], key) == "" {
      FindFrom(Glued(pieces), key, max, Glued(pieces[m + 1..]));
      ClosedAfterQuote(pieces, m + 1, max);
    }
  }

  lemma ClosedAfterQuote(pieces: seq<string>, i: nat, max: nat)
    requires i < |pieces| && AllQuoteFree(pieces)
    ensures Closed(AfterQuote(Glued(pieces[i..])), max)
         == if i + 2 < |pieces| && |pieces[i + 1]| < max then Some(pieces[i + 1]) else None
  {
    AfterQuotePieces(pieces[i..]);
    assert pieces[i..][1..] == pieces[i + 1..];
    ClosedPieces(pieces[i + 1..], max);
  }

  /** Every text is cut into such pieces. */
  lemma {:induction false} EveryTextHasPieces(s: string) returns (pieces: seq<string>)
    ensures pieces != [] && AllQuoteFree(pieces) && Glued(pieces) == s
  {
    var n := Quote(s);
    if n == |s| {
      pieces := [s];
    } else {
      var rest := EveryTextHasPieces(s[n + 1..]);
      pieces := [s[..n]] + rest;
      assert pieces[1..] == rest;
      assert s == s[..n] + "\"" + s[n + 1..];
    }
  }

  /** Up to the piece that is the key the pieces may hold quotes: a key without quotes lies inside one of them. */
  lemma {:induction false} AfterKeyAt(pieces: seq<string>, m: nat, key: string)
    requires m + 1 < |pieces| && QuoteFree(key) && pieces[m] == key
    requires forall k :: 0 <= k < m ==> !Contains(pieces[k], key)
    ensures AfterKey(Glued(pieces), key) == Some(Glued(pieces[m + 1..]))
    decreases m
  {
    var rest := pieces[1..];
    if m == 0 {
      HitPiece(key, Glued(rest), key);
    } else {
      SkipPiece(pieces[0], Glued(rest), key);
      AfterKeyAt(rest, m - 1, key);
      assert rest[m..] == pieces[m + 1..];
    }
  }

  // ---------- every text and every key, quotes in it or not ----------

  /** The key begins at no earlier place. */
  predicate NotBefore(s: string, key: string, p: nat) {
    p <= |s| && forall i :: 0 <= i < p ==> !(key <= s[i..])
  }

  lemma {:induction false} AfterFirst(pre: string, key: string, rest: string)
    requires NotBefore(pre + key + rest, key, |pre|)
    ensures AfterKey(pre + key + rest, key) == if rest != "" && rest[0] == '"' then Some(rest[1..]) else None
  {
    var s := pre + key + rest;
    if pre == "" {
      assert s == key + rest;
      assert rest != "" ==> s[|key|] == rest[0] && s[|key| + 1..] == rest[1..];
    } else {
      assert s[0..] == s;
      assert s[1..] == pre[1..] + key + rest;
      forall i | 0 <= i < |pre| - 1 ensures !(key <= s[1..][i..]) {
        assert s[1..][i..] == s[i + 1..];
      }
      AfterFirst(pre[1..], key, rest);
    }
  }

  /** Nothing is found or stored for a key that does not occur, */
  lemma {:induction false} AbsentKey(s: string, key: string, max: nat)
    requires forall i :: 0 <= i <= |s| ==> !(key <= s[i..])
    ensures Find(s, key, max) == None && FindStored(s, key, max) == ""
  {
    assert s[0..] == s;
    if |s| > |key| {
      forall i | 0 <= i <= |s| - 1 ensures !(key <= s[1..][i..]) {
        assert s[1..][i..] == s[i + 1..];
      }
      AbsentKey(s[1..], key, max);
    }
  }

  /** or whose first occurrence is followed by another character than a quote, or by no further quote. */
  lemma OpenKey(pre: string, key: string, rest: string, max: nat)
    requires NotBefore(pre + key + rest, key, |pre|)
    requires rest == "" || rest[0] != '"' || QuoteFree(rest[1..])
    ensures Find(pre + key + rest, key, max) == None && FindStored(pre + key + rest, key, max) == ""
  {
    AfterFirst(pre, key, rest);
    if rest != "" && rest[0] == '"' {
      QuoteAt(rest[1..], |rest| - 1);
      assert AfterQuote(rest[1..]) == "";
    }
  }

  /**
   * Behind the first occurrence with its quote and behind the next quote, the characters up to another quote are
   * copied while there is room. They are the value exactly when that quote is there and leaves room for a NUL.
   */
  lemma FindsBetweenQuotes(pre: string, key: string, mid: string, value: string, post: string, max: nat)
    requires NotBefore(pre + key + ("\"" + mid + "\"" + value + post), key, |pre|)
    requires QuoteFree(mid) && QuoteFree(value) && |value| <= max
    requires |value| == max || post == "" || post[0] == '"'
    ensures var s, found := pre + key + ("\"" + mid + "\"" + value + post), |value| < max && post != "";
            && Find(s, key, max) == (if found then Some(value) else None)
            && FindStored(s, key, max) == (if found then value + ['\0'] else value)
  {
    var rest, tail := "\"" + mid + "\"" + value + post, value + post;
    AfterFirst(pre, key, rest);
    FindFrom(pre + key + rest, key, max, rest[1..]);
    QuoteAt(rest[1..], |mid|);
    assert AfterQuote(rest[1..]) == tail;
    assert tail[..|value|] == value;
    if |value| < max && post != "" {
      assert tail[|value|] == post[0];
      ClosedAt(tail, |value|, max);
    } else {
      NotClosed(tail, |value|, max);
    }
  }
}
