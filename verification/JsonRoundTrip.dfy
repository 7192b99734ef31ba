/** Looking up a key in a text built from pairs. */
module JsonRoundTrip {
  import opened Common
  import opened Json
  import opened JsonFind
  import opened JsonTheory

  predicate PairsQuoteFree(pairs: seq<Pair>) {
    forall i :: 0 <= i < |pairs| ==> QuoteFree(pairs[i].key) && QuoteFree(pairs[i].value)
  }

  /** The text of the pairs, with whatever follows the last of them: a closing brace, a dangling comma. */
  function ObjectText(pairs: seq<Pair>, close: string): string {
    "{" + Joined(pairs) + close
  }

  /** The pieces after the opening brace. */
  function Body(pairs: seq<Pair>, close: string): (pieces: seq<string>)
    requires pairs != []
    ensures |pieces| == 4 * |pairs|
  {
    [pairs[0].key, ":", pairs[0].value]
    + if |pairs| == 1 then [close] else [","] + Body(pairs[1..], close)
  }

  function Pieces(pairs: seq<Pair>, close: string): (pieces: seq<string>)
    ensures |pieces| == 4 * |pairs| + 1
  {
    if pairs == [] then ["{" + close] else ["{"] + Body(pairs, close)
  }

  lemma {:induction false} JoinedCons(pair: Pair, pairs: seq<Pair>)
    ensures Joined([pair] + pairs) == Quoted(pair) + if pairs == [] then "" else "," + Joined(pairs)
  {
    var all := [pair] + pairs;
    if pairs == [] {
      assert all[..0] == [];
      assert Joined(all[..0]) == "";
    } else {
      var front, last := pairs[..|pairs| - 1], pairs[|pairs| - 1];
      assert pairs == front + [last];
      assert all == ([pair] + front) + [last];
      JoinedCons(pair, front);
      JoinedSnoc([pair] + front, last);
      JoinedSnoc(front, last);
      JoinedEnds(front);
      Reassociate(Quoted(pair), Joined(front), Quoted(last));
    }
  }

  lemma Reassociate(first: string, joined: string, last: string)
    requires first != ""
    ensures var before := first + if joined == "" then "" else "," + joined;
            before + Comma(before) + last == first + ("," + (joined + Comma(joined) + last))
  {
  }

  lemma GluedCons(piece: string, rest: seq<string>)
    requires rest != []
    ensures Glued([piece] + rest) == piece + ("\"" + Glued(rest))
  {
    assert ([piece] + rest)[1..] == rest;
  }

  lemma GluedBody(key: string, value: string, rest: seq<string>)
    requires rest != []
    ensures "\"" + Glued([key, ":", value] + rest) == Quoted(Pair(key, value)) + Glued(rest)
  {
    GluedCons(value, rest);
    GluedCons(":", [value] + rest);
    GluedCons(key, [":"] + ([value] + rest));
    assert [key, ":", value] + rest == [key] + ([":"] + ([value] + rest));
    QuotedSplit(key, value, Glued(rest));
  }

  lemma QuotedSplit(key: string, value: string, tail: string)
    ensures "\"" + (key + ("\"" + (":" + ("\"" + (value + ("\"" + tail)))))) == Quoted(Pair(key, value)) + tail
  {
  }

  lemma CommaSplit(first: string, joined: string, close: string)
    ensures first + ("," + (joined + close)) == first + ("," + joined) + close
  {
  }

  lemma {:induction false} BodyIsJoined(pairs: seq<Pair>, close: string)
    requires pairs != []
    ensures "\"" + Glued(Body(pairs, close)) == Joined(pairs) + close
  {
    var p, rest := pairs[0], pairs[1..];
    assert pairs == [p] + rest;
    JoinedCons(p, rest);
    if rest == [] {
      GluedBody(p.key, p.value, [close]);
    } else {
      var body := Body(rest, close);
      GluedBody(p.key, p.value, [","] + body);
      GluedCons(",", body);
      BodyIsJoined(rest, close);
      CommaSplit(Quoted(p), Joined(rest), close);
    }
  }

  lemma Braced(joined: string, close: string)
    ensures "{" + (joined + close) == "{" + joined + close
  {
  }

  /** The text is its pieces with quotes between them. */
  lemma TextIsGlued(pairs: seq<Pair>, close: string)
    ensures Glued(Pieces(pairs, close)) == ObjectText(pairs, close)
  {
    if pairs == [] {
      assert "{" + close == "{" + "" + close;
    } else {
      GluedCons("{", Body(pairs, close));
      BodyIsJoined(pairs, close);
      Braced(Joined(pairs), close);
    }
  }

  lemma {:induction false} BodyAt(pairs: seq<Pair>, close: string, i: nat)
    requires i < |pairs|
    ensures Body(pairs, close)[4 * i] == pairs[i].key && Body(pairs, close)[4 * i + 2] == pairs[i].value
    ensures Body(pairs, close)[4 * i + 1] == ":"
    ensures Body(pairs, close)[4 * i + 3] == if i + 1 == |pairs| then close else ","
  {
    if i > 0 {
      BodyAt(pairs[1..], close, i - 1);
    }
  }

  lemma {:induction false} BodyQuoteFree(pairs: seq<Pair>, close: string)
    requires pairs != [] && PairsQuoteFree(pairs) && QuoteFree(close)
    ensures AllQuoteFree(Body(pairs, close))
  {
    if |pairs| > 1 {
      BodyQuoteFree(pairs[1..], close);
    }
  }

  lemma PiecesQuoteFree(pairs: seq<Pair>, close: string)
    requires PairsQuoteFree(pairs) && QuoteFree(close)
    ensures AllQuoteFree(Pieces(pairs, close))
  {
    if pairs != [] {
      BodyQuoteFree(pairs, close);
    }
  }

  lemma ContainsItself(key: string)
    ensures Contains(key, key) && After(key, key) == ""
  {
  }

  /** The pieces before the key of pair i: the brace, earlier pairs, and the colons and commas between. */
  predicate NoneContains(pairs: seq<Pair>, close: string, i: nat, key: string) {
    forall k :: 0 <= k <= 4 * i && k < |Pieces(pairs, close)| ==> !Contains(Pieces(pairs, close)[k], key)
  }

  lemma PiecesAt(pairs: seq<Pair>, close: string, i: nat)
    requires i < |pairs|
    ensures Pieces(pairs, close)[4 * i + 1] == pairs[i].key && Pieces(pairs, close)[4 * i + 3] == pairs[i].value
    ensures Pieces(pairs, close)[4 * i + 2] == ":"
  {
    BodyAt(pairs, close, i);
  }

  lemma QuoteBefore(value: string, tail: string)
    ensures Quote(value + "\"" + tail) == Quote(value)
    ensures (value + "\"" + tail)[..Quote(value)] == value[..Quote(value)]
  {
    QuoteAt(value + "\"" + tail, Quote(value));
  }

  lemma ClosedValue(value: string, tail: string, max: nat)
    ensures Closed(value + "\"" + tail, max)
         == if Quote(value) < max then Some(value[..Quote(value)]) else None
  {
    QuoteBefore(value, tail);
  }

  lemma AfterColon(rest: string)
    ensures AfterQuote(":" + ("\"" + rest)) == rest
  {
    QuoteAt(":" + ("\"" + rest), 1);
  }

  /** What is found behind the key: a colon between quotes, the value and a quote. */
  lemma FoundBehindKey(rest: seq<string>, value: string, max: nat)
    requires |rest| > 2 && rest[0] == ":" && rest[1] == value
    ensures Closed(AfterQuote(Glued(rest)), max) == if Quote(value) < max then Some(value[..Quote(value)]) else None
  {
    var tail := rest[2..];
    assert rest == [":"] + ([value] + tail);
    GluedCons(":", [value] + tail);
    GluedCons(value, tail);
    AfterColon(value + ("\"" + Glued(tail)));
    assert value + ("\"" + Glued(tail)) == value + "\"" + Glued(tail);
    ClosedValue(value, Glued(tail), max);
  }

  /**
   * Whatever the keys, the values and the end of the text hold: when the key of a pair holds no quote and nothing
   * before it contains it, its value is found up to the value's first quote, if that much fits.
   */
  lemma FindsUpToQuote(pairs: seq<Pair>, close: string, i: nat, max: nat)
    requires i < |pairs| && QuoteFree(pairs[i].key) && NoneContains(pairs, close, i, pairs[i].key)
    ensures var value := pairs[i].value;
            Find(ObjectText(pairs, close), pairs[i].key, max)
            == if Quote(value) < max then Some(value[..Quote(value)]) else None
  {
    var pieces, key := Pieces(pairs, close), pairs[i].key;
    TextIsGlued(pairs, close);
    PiecesAt(pairs, close, i);
    AfterKeyAt(pieces, 4 * i + 1, key);
    FindFrom(Glued(pieces), key, max, Glued(pieces[4 * i + 2..]));
    FoundBehindKey(pieces[4 * i + 2..], pairs[i].value, max);
  }

  lemma WholeIff(value: string)
    ensures value[..Quote(value)] == value <==> QuoteFree(value)
  {
    if QuoteFree(value) {
      QuoteAt(value, |value|);
    }
  }

  /** So the value itself comes back exactly when it fits and holds no quote. */
  lemma FindsOwnValue(pairs: seq<Pair>, close: string, i: nat, max: nat)
    requires i < |pairs| && QuoteFree(pairs[i].key) && NoneContains(pairs, close, i, pairs[i].key)
    ensures Find(ObjectText(pairs, close), pairs[i].key, max) == Some(pairs[i].value)
       <==> |pairs[i].value| < max && QuoteFree(pairs[i].value)
    ensures QuoteFree(pairs[i].value) && max <= |pairs[i].value| ==>
              Find(ObjectText(pairs, close), pairs[i].key, max) == None
  {
    FindsUpToQuote(pairs, close, i, max);
    WholeIff(pairs[i].value);
  }

  lemma HitBefore(pieces: seq<string>, key: string, m: nat)
    requires m < |pieces| && Contains(pieces[m], key)
    ensures Hit(pieces, key) <= m
  {
  }

  /**
   * For every pair of every text: its value is found exactly when it fits, the first piece that contains the key ends
   * with the key's first occurrence, and the next piece but one reads like the value.
   */
  lemma FindsOwnValueIff(pairs: seq<Pair>, close: string, i: nat, max: nat)
    requires PairsQuoteFree(pairs) && QuoteFree(close) && i < |pairs|
    ensures var pieces, key := Pieces(pairs, close), pairs[i].key;
            var m := Hit(pieces, key);
            m <= 4 * i + 1
            && (Find(ObjectText(pairs, close), key, max) == Some(pairs[i].value)
                <==> |pairs[i].value| < max && After(pieces[m], key) == "" && pieces[m + 2] == pairs[i].value)
  {
    var pieces, key := Pieces(pairs, close), pairs[i].key;
    PiecesQuoteFree(pairs, close);
    TextIsGlued(pairs, close);
    FindIsPieceFound(pieces, key, max);
    PiecesAt(pairs, close, i);
    ContainsItself(key);
    HitBefore(pieces, key, 4 * i + 1);
  }

  /** When the value occurs nowhere else as a piece, it is found exactly when no earlier piece contains the key. */
  lemma FindsDistinctValueIff(pairs: seq<Pair>, close: string, i: nat, max: nat)
    requires PairsQuoteFree(pairs) && QuoteFree(close) && i < |pairs|
    requires forall k :: 0 <= k < 4 * |pairs| + 1 && k != 4 * i + 3 ==> Pieces(pairs, close)[k] != pairs[i].value
    ensures Find(ObjectText(pairs, close), pairs[i].key, max) == Some(pairs[i].value)
       <==> |pairs[i].value| < max && NoneContains(pairs, close, i, pairs[i].key)
  {
    FindsOwnValueIff(pairs, close, i, max);
    if NoneContains(pairs, close, i, pairs[i].key) {
      FindsOwnValue(pairs, close, i, max);
    }
  }

  /** An empty key is never found in such a text. */
  lemma EmptyKeyNotFound(pairs: seq<Pair>, close: string, max: nat)
    ensures Find(ObjectText(pairs, close), "", max) == None
  {
    assert ObjectText(pairs, close)[0] == '{';
  }

  lemma {:induction false} CloseIsLast(pairs: seq<Pair>, close: string, other: string, k: nat)
    requires pairs != [] && k < 4 * |pairs| - 1
    ensures Body(pairs, close)[k] == Body(pairs, other)[k]
  {
    if |pairs| > 1 && k >= 4 {
      CloseIsLast(pairs[1..], close, other, k - 4);
    }
  }

  lemma NoneContainsAnyClose(pairs: seq<Pair>, close: string, other: string, i: nat, key: string)
    requires i < |pairs| && NoneContains(pairs, close, i, key)
    ensures NoneContains(pairs, other, i, key)
  {
    forall k | 0 <= k <= 4 * i ensures !Contains(Pieces(pairs, other)[k], key) {
      assert !Contains(Pieces(pairs, close)[k], key);
      if k > 0 {
        CloseIsLast(pairs, close, other, k - 1);
      }
    }
  }

  /**
   * Built by a run of calls that were all accepted, ended by a last one, and searched in the buffer that this leaves:
   * with the closing brace or, when that no longer fits, without it, and with any bytes behind the text, its NUL and
   * quotes included.
   */
  lemma BuildThenFind(offers: seq<Pair>, size: nat, behind: seq<char>, i: nat, max: nat)
    requires i < |offers| && QuoteFree(offers[i].key)
    requires |Joined(offers)| + 2 <= size
    requires NoneContains(offers, "}", i, offers[i].key)
    ensures var value := offers[i].value;
            Find(Ended(Built(offers, size), size) + behind, offers[i].key, max)
            == if Quote(value) < max then Some(value[..Quote(value)]) else None
  {
    AllTakenIff(offers, size);
    AllTakenText(offers, size);
    var close := (if |Joined(offers)| + 3 <= size then "}" else "") + behind;
    assert Ended(Built(offers, size), size) + behind == ObjectText(offers, close);
    NoneContainsAnyClose(offers, "}", close, i, offers[i].key);
    FindsUpToQuote(offers, close, i, max);
  }

  /** A key that ends an earlier key finds the earlier value. */
  lemma SuffixKeyFindsOther()
    ensures Find(ObjectText([Pair("xkey", "1"), Pair("key", "2")], "}"), "key", 8) == Some("1")
  {
    var pairs := [Pair("xkey", "1"), Pair("key", "2")];
    var pieces := Pieces(pairs, "}");
    assert pairs[1..] == [Pair("key", "2")];
    assert pieces == ["{", "xkey", ":", "1", ",", "key", ":", "2", "}"];
    assert Contains("xkey", "key") && After("xkey", "key") == "" by {
      assert "xkey"[1..] == "key" && "xkey"[0] != "key"[0];
      ContainsItself("key");
    }
    assert Hit(pieces, "key") == 1;
    TextIsGlued(pairs, "}");
    FindIsPieceFound(pieces, "key", 8);
  }

  /** A key that begins or lies inside an earlier key or value finds nothing. */
  lemma PrefixKeyFindsNothing()
    ensures Find(ObjectText([Pair("keys", "1"), Pair("key", "2")], "}"), "key", 8) == None
  {
    var pairs := [Pair("keys", "1"), Pair("key", "2")];
    var pieces := Pieces(pairs, "}");
    assert pairs[1..] == [Pair("key", "2")];
    assert pieces == ["{", "keys", ":", "1", ",", "key", ":", "2", "}"];
    assert Hit(pieces, "key") == 1;
    TextIsGlued(pairs, "}");
    FindIsPieceFound(pieces, "key", 8);
  }
}
