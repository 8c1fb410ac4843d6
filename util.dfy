/** URL and path helpers (src/util.rs): rewriting one query parameter,
    replacing the path, and joining only the normal components of a path
    onto a base directory. */
module Util {
  import opened Wrappers
  import opened Text
  import Seqs

  // ---------------------------------------------------------------------------
  // URLs

  /** One piece of a serialized query: `k` (key only) or `k=v`. */
  datatype Param = KeyOnly(key: string) | Pair(key: string, value: string)

  /** A URL cut where the helpers need it: everything before the path
      (scheme and authority), the path, the query pieces and the fragment.
      Percent-encoding is not modelled: keys and values are as decoded. */
  datatype Url = Url(origin: string, path: string, query: Option<seq<Param>>, fragment: Option<string>)

  /** How a query piece reads back as a (key, value) pair: a key-only piece
      has the empty value. */
  function Decode(p: Param): (string, string) {
    match p
    case KeyOnly(k) => (k, "")
    case Pair(k, v) => (k, v)
  }

  /** An empty piece, as between two adjacent '&' or after a trailing one. */
  predicate NoEmptyPiece(ps: seq<Param>) {
    forall i :: 0 <= i < |ps| ==> ps[i] != KeyOnly("")
  }

  /** `form_urlencoded::parse`: the pieces in order, empty ones skipped. */
  function DecodeAll(ps: seq<Param>): (kvs: seq<(string, string)>)
    ensures |kvs| <= |ps|
    ensures NoEmptyPiece(ps) ==> |kvs| == |ps| && forall i :: 0 <= i < |ps| ==> kvs[i] == Decode(ps[i])
  {
    if ps == [] then []
    else
      var n := |ps| - 1;
      assert forall i :: 0 <= i < n ==> ps[..n][i] == ps[i];
      DecodeAll(ps[..n]) + (if ps[n] == KeyOnly("") then [] else [Decode(ps[n])])
  }

  /** `Url::query_pairs`: the decoded pairs of the query, none without one. */
  function QueryPairs(u: Url): seq<(string, string)> {
    if u.query.None? then [] else DecodeAll(u.query.value)
  }

  function Piece(p: Param): string {
    match p
    case KeyOnly(k) => k
    case Pair(k, v) => k + "=" + v
  }

  /** The query text of a URL whose query splits at '&' into these pieces. */
  function QueryText(ps: seq<Param>): string {
    if ps == [] then "" else if |ps| == 1 then Piece(ps[0]) else QueryText(ps[..|ps| - 1]) + "&" + Piece(ps[|ps| - 1])
  }

  /** `form_urlencoded::Serializer` appending one piece, on the pieces of the
      text written so far: the separator goes in only once that text is
      nonempty, so an empty key-only piece written first leaves no trace. */
  function Append(ws: seq<Param>, p: Param): seq<Param> {
    if ws == [] && p == KeyOnly("") then [] else ws + [p]
  }

  /** The pieces of the text the serializer writes for ps, one append each. */
  function Written(ps: seq<Param>): (ws: seq<Param>)
    ensures ws == [] || ws[0] != KeyOnly("")
  {
    if ps == [] then [] else Append(Written(ps[..|ps| - 1]), ps[|ps| - 1])
  }

  lemma WrittenSnoc(ps: seq<Param>, p: Param)
    ensures Written(ps + [p]) == Append(Written(ps), p)
  {
    assert (ps + [p])[..|ps|] == ps;
  }

  /** `append_separator_if_needed`: the text grows by the piece alone while it
      is empty, and by '&' and the piece once it is not. */
  lemma SerializerText(ps: seq<Param>, p: Param)
    ensures var t := QueryText(Written(ps));
      QueryText(Written(ps + [p])) == if t == "" then Piece(p) else t + "&" + Piece(p)
  {
    var ws := Written(ps);
    WrittenSnoc(ps, p);
    JoinEmpty(ws);
    if ws != [] {
      assert (ws + [p])[..|ws|] == ws;
    }
  }

  /** Only the leading empty pieces are dropped: a piece sequence that does not
      start with one is written as itself. */
  lemma {:induction false} WrittenKeeps(ps: seq<Param>)
    ensures Written(ps) == ps <==> ps == [] || ps[0] != KeyOnly("")
  {
    if |ps| > 1 {
      var n := |ps| - 1;
      WrittenKeeps(ps[..n]);
      assert ps == ps[..n] + [ps[n]];
    }
  }

  /** Writing drops nothing that reading keeps. */
  lemma {:induction false} DecodeWritten(ps: seq<Param>)
    ensures DecodeAll(Written(ps)) == DecodeAll(ps)
  {
    if ps != [] {
      var n := |ps| - 1;
      DecodeWritten(ps[..n]);
      var ws := Written(ps[..n]);
      if !(ws == [] && ps[n] == KeyOnly("")) {
        assert (ws + [ps[n]])[..|ws|] == ws;
      }
    }
  }

  /** How query_param writes back a pair it keeps: an empty value key-only. */
  function Normal(kv: (string, string)): Param {
    if kv.1 == "" then KeyOnly(kv.0) else Pair(kv.0, kv.1)
  }

  /** What query_param writes for one existing pair. */
  function Rewrite(kv: (string, string), key: string, value: Option<string>): seq<Param> {
    if kv.0 == key then (if value.Some? then [Normal((kv.0, value.value))] else [])
    else [Normal(kv)]
  }

  /** The pieces rebuilt from the existing pairs, in their order. */
  function Rebuilt(kvs: seq<(string, string)>, key: string, value: Option<string>): seq<Param>
    decreases |kvs|
  {
    if kvs == [] then []
    else Rebuilt(kvs[..|kvs| - 1], key, value) + Rewrite(kvs[|kvs| - 1], key, value)
  }

  predicate HasKey(kvs: seq<(string, string)>, key: string) {
    exists i :: 0 <= i < |kvs| && kvs[i].0 == key
  }

  /** The full new query: the rebuilt pieces, then (key, value) as a pair
      when the key was absent and a value is given. */
  function NewQuery(kvs: seq<(string, string)>, key: string, value: Option<string>): seq<Param> {
    Rebuilt(kvs, key, value) + (if HasKey(kvs, key) || value.None? then [] else [Pair(key, value.value)])
  }

  /** query_param: the URL with its query rewritten as the serializer writes
      the new pieces; an empty query text leaves the URL with no query at all. */
  function QueryParamSpec(u: Url, key: string, value: Option<string>): Url {
    var ws := Written(NewQuery(QueryPairs(u), key, value));
    u.(query := if QueryText(ws) == "" then None else Some(ws))
  }

  /** `UrlExt::query_param`: one pass over the existing pairs with an
      `updated` flag, then the append and the empty-query cleanup. */
  method QueryParam(u: Url, key: string, value: Option<string>) returns (out: Url)
    ensures out == QueryParamSpec(u, key, value)
  {
    var kvs := QueryPairs(u);
    var pairs: seq<Param> := [];
    var updated := false;
    for i := 0 to |kvs|
      invariant pairs == Written(Rebuilt(kvs[..i], key, value))
      invariant updated <==> HasKey(kvs[..i], key)
    {
      var k := kvs[i].0;
      var v := kvs[i].1;
      RebuiltStep(kvs, i, key, value);
      var r := Rebuilt(kvs[..i], key, value);
      if Rewrite(kvs[i], key, value) != [] {
        WrittenSnoc(r, Rewrite(kvs[i], key, value)[0]);
      } else {
        assert r + [] == r;
      }
      if k == key {
        if value.Some? {
          if value.value == "" {
            pairs := Append(pairs, KeyOnly(k));
          } else {
            pairs := Append(pairs, Pair(k, value.value));
          }
        }
        updated := true;
      } else if v == "" {
        pairs := Append(pairs, KeyOnly(k));
      } else {
        pairs := Append(pairs, Pair(k, v));
      }
    }
    assert kvs[..|kvs|] == kvs;
    var r := Rebuilt(kvs, key, value);
    if !updated && value.Some? {
      WrittenSnoc(r, Pair(key, value.value));
      pairs := Append(pairs, Pair(key, value.value));
    } else {
      assert r + [] == r;
    }
    assert pairs == Written(NewQuery(kvs, key, value));
    out := u.(query := Some(pairs));
    if QueryText(pairs) == "" {
      out := out.(query := None);
    }
  }

  lemma RebuiltStep(kvs: seq<(string, string)>, i: nat, key: string, value: Option<string>)
    requires i < |kvs|
    ensures Rebuilt(kvs[..i + 1], key, value) == Rebuilt(kvs[..i], key, value) + Rewrite(kvs[i], key, value)
    ensures HasKey(kvs[..i + 1], key) <==> HasKey(kvs[..i], key) || kvs[i].0 == key
  {
    assert kvs[..i + 1][..i] == kvs[..i];
    assert kvs[..i + 1] == kvs[..i] + [kvs[i]];
    HasKeyAppend(kvs[..i], [kvs[i]], key);
    HasKeySingle(kvs[i], key);
  }

  /** The written query text is empty exactly when every piece is an empty
      key-only piece, however many there are (`=&=` with another key). */
  lemma {:induction false} QueryTextEmpty(ps: seq<Param>)
    ensures QueryText(Written(ps)) == "" <==> forall i :: 0 <= i < |ps| ==> ps[i] == KeyOnly("")
  {
    JoinEmpty(Written(ps));
    WrittenNone(ps);
  }

  lemma {:induction false} WrittenNone(ps: seq<Param>)
    ensures Written(ps) == [] <==> forall i :: 0 <= i < |ps| ==> ps[i] == KeyOnly("")
  {
    if ps != [] {
      var n := |ps| - 1;
      WrittenNone(ps[..n]);
      assert forall i :: 0 <= i < n ==> ps[..n][i] == ps[i];
    }
  }

  /** A piece sequence's text is empty only for no pieces or a single empty key. */
  lemma {:induction false} JoinEmpty(ps: seq<Param>)
    ensures QueryText(ps) == "" <==> ps == [] || ps == [KeyOnly("")]
  {
    if |ps| == 1 {
      match ps[0]
      case KeyOnly(k) =>
      case Pair(k, v) => assert (k + "=" + v)[|k|] == '=';
    } else if |ps| > 1 {
      var t := QueryText(ps[..|ps| - 1]) + "&" + Piece(ps[|ps| - 1]);
      assert t[|QueryText(ps[..|ps| - 1])|] == '&';
    }
  }

  /** The pieces whose key is not `key`, in order. */
  function WithoutKey(ps: seq<Param>, key: string): (r: seq<Param>)
    ensures forall i :: 0 <= i < |r| ==> r[i].key != key
  {
    if ps == [] then []
    else WithoutKey(ps[..|ps| - 1], key) + (if ps[|ps| - 1].key == key then [] else [ps[|ps| - 1]])
  }

  function NormalAll(kvs: seq<(string, string)>): (r: seq<Param>)
    ensures |r| == |kvs|
  {
    if kvs == [] then [] else NormalAll(kvs[..|kvs| - 1]) + [Normal(kvs[|kvs| - 1])]
  }

  /** The existing pairs with the key's values replaced. */
  function ReplaceValue(kvs: seq<(string, string)>, key: string, v: string): (r: seq<(string, string)>)
    ensures |r| == |kvs|
  {
    if kvs == [] then []
    else
      var kv := kvs[|kvs| - 1];
      ReplaceValue(kvs[..|kvs| - 1], key, v) + [if kv.0 == key then (kv.0, v) else kv]
  }

  lemma WithoutKeyAppend(ps: seq<Param>, qs: seq<Param>, key: string)
    ensures WithoutKey(ps + qs, key) == WithoutKey(ps, key) + WithoutKey(qs, key)
    decreases |qs|
  {
    if qs == [] {
      assert ps + qs == ps;
    } else {
      var n := |qs| - 1;
      assert (ps + qs)[..|ps + qs| - 1] == ps + qs[..n];
      assert (ps + qs)[|ps + qs| - 1] == qs[n];
      WithoutKeyAppend(ps, qs[..n], key);
      Seqs.ConcatAssoc(WithoutKey(ps, key), WithoutKey(qs[..n], key),
                       if qs[n].key == key then [] else [qs[n]]);
    }
  }

  /** Pairs under other keys keep their order, each written back with an
      empty value as a bare key. */
  lemma {:induction false} RebuiltKeepsOthers(kvs: seq<(string, string)>, key: string, value: Option<string>)
    ensures WithoutKey(Rebuilt(kvs, key, value), key) == WithoutKey(NormalAll(kvs), key)
  {
    if kvs != [] {
      var n := |kvs| - 1;
      RebuiltKeepsOthers(kvs[..n], key, value);
      WithoutKeyAppend(Rebuilt(kvs[..n], key, value), Rewrite(kvs[n], key, value), key);
      WithoutKeyAppend(NormalAll(kvs[..n]), [Normal(kvs[n])], key);
      if kvs[n].0 == key && value.Some? {
        assert WithoutKey([Normal((kvs[n].0, value.value))], key) == [];
        assert WithoutKey([Normal(kvs[n])], key) == [];
      } else if kvs[n].0 == key {
        assert WithoutKey([], key) == [];
        assert WithoutKey([Normal(kvs[n])], key) == [];
      }
    }
  }

  /** With a value, every occurrence of the key is replaced where it stood;
      an empty value is written as the bare key. */
  lemma {:induction false} RebuiltReplaces(kvs: seq<(string, string)>, key: string, v: string)
    ensures Rebuilt(kvs, key, Some(v)) == NormalAll(ReplaceValue(kvs, key, v))
  {
    if kvs != [] {
      RebuiltReplaces(kvs[..|kvs| - 1], key, v);
    }
  }

  /** Without a value, every occurrence of the key is dropped. */
  lemma {:induction false} RebuiltRemoves(kvs: seq<(string, string)>, key: string)
    ensures Rebuilt(kvs, key, None) == WithoutKey(NormalAll(kvs), key)
  {
    if kvs != [] {
      RebuiltRemoves(kvs[..|kvs| - 1], key);
    }
  }

  /** An absent key with a value is appended last, as `key=value` even for
      an empty value; a present key is never appended. */
  lemma QueryParamAppends(u: Url, key: string, value: Option<string>)
    ensures var out := QueryParamSpec(u, key, value);
      && (!HasKey(QueryPairs(u), key) && value.Some? ==>
            out.query == Some(Written(NormalAll(QueryPairs(u))) + [Pair(key, value.value)]))
      && (HasKey(QueryPairs(u), key) && value.Some? ==>
            NewQuery(QueryPairs(u), key, value) == NormalAll(ReplaceValue(QueryPairs(u), key, value.value)))
  {
    var kvs := QueryPairs(u);
    if value.Some? {
      RebuiltReplaces(kvs, key, value.value);
      if !HasKey(kvs, key) {
        ReplaceAbsent(kvs, key, value.value);
        var ps := NormalAll(kvs) + [Pair(key, value.value)];
        assert ps[|ps| - 1] == Pair(key, value.value);
        WrittenSnoc(NormalAll(kvs), Pair(key, value.value));
        QueryTextEmpty(ps);
      }
    }
  }

  lemma {:induction false} ReplaceAbsent(kvs: seq<(string, string)>, key: string, v: string)
    requires !HasKey(kvs, key)
    ensures ReplaceValue(kvs, key, v) == kvs
  {
    if kvs != [] {
      var n := |kvs| - 1;
      Seqs.FrontLast(kvs);
      HasKeyAppend(kvs[..n], [kvs[n]], key);
      HasKeySingle(kvs[n], key);
      ReplaceAbsent(kvs[..n], key, v);
    }
  }

  lemma HasKeyAppend(xs: seq<(string, string)>, ys: seq<(string, string)>, key: string)
    ensures HasKey(xs + ys, key) <==> HasKey(xs, key) || HasKey(ys, key)
  {
    if HasKey(xs + ys, key) {
      var i :| 0 <= i < |xs + ys| && (xs + ys)[i].0 == key;
      if i < |xs| {
        assert xs[i].0 == key;
      } else {
        assert ys[i - |xs|].0 == key;
      }
    }
    if HasKey(xs, key) {
      var i :| 0 <= i < |xs| && xs[i].0 == key;
      assert (xs + ys)[i].0 == key;
    }
    if HasKey(ys, key) {
      var i :| 0 <= i < |ys| && ys[i].0 == key;
      assert (xs + ys)[|xs| + i].0 == key;
    }
  }

  lemma HasKeySingle(kv: (string, string), key: string)
    ensures HasKey([kv], key) <==> kv.0 == key
  {
    assert [kv][0] == kv;
  }

  /** A value is given, and writing it under the key is not the empty piece
      (which is what an empty key with an empty value becomes). */
  predicate WritesPiece(key: string, value: Option<string>) {
    value.Some? && (key != "" || value.value != "")
  }

  /** A pair's rewrite mentions the key only when it had it and a value is
      written for it. */
  lemma RewriteHasKey(kv: (string, string), key: string, value: Option<string>)
    ensures HasKey(DecodeAll(Rewrite(kv, key, value)), key) <==> kv.0 == key && WritesPiece(key, value)
  {
    var d := DecodeAll(Rewrite(kv, key, value));
    if kv.0 == key && WritesPiece(key, value) {
      assert d[0].0 == key;
    } else if kv.0 == key && value.Some? {
      assert d == [];
    } else if kv.0 != key {
      if Normal(kv) == KeyOnly("") {
        assert d == [];
      } else {
        assert d == [Decode(Normal(kv))];
        HasKeySingle(Decode(Normal(kv)), key);
      }
    } else {
      assert d == [];
    }
  }

  /** A piece query_param would write back unchanged. */
  predicate Stable(p: Param, key: string, value: Option<string>) {
    Rewrite(Decode(p), key, value) == [p]
  }

  lemma {:induction false} RebuiltOfStable(ps: seq<Param>, key: string, value: Option<string>)
    requires NoEmptyPiece(ps)
    requires forall i :: 0 <= i < |ps| ==> Stable(ps[i], key, value)
    ensures Rebuilt(DecodeAll(ps), key, value) == ps
  {
    if ps != [] {
      var n := |ps| - 1;
      assert NoEmptyPiece(ps[..n]) by {
        assert forall i :: 0 <= i < n ==> ps[..n][i] == ps[i];
      }
      var d := DecodeAll(ps);
      assert d == DecodeAll(ps[..n]) + [Decode(ps[n])];
      assert d[..|d| - 1] == DecodeAll(ps[..n]);
      RebuiltOfStable(ps[..n], key, value);
      assert ps == ps[..n] + [ps[n]];
    }
  }

  /** Whether the pairs hold the one `=` reads as: empty key, empty value. */
  predicate HasEmptyPair(kvs: seq<(string, string)>) {
    exists i :: 0 <= i < |kvs| && kvs[i] == ("", "")
  }

  /** The rewrite writes an empty piece only for an `=` pair under another key
      (it becomes the bare empty key) or for the key itself with an empty value. */
  lemma {:induction false} RebuiltNoEmptyPiece(kvs: seq<(string, string)>, key: string, value: Option<string>)
    requires value != Some("")
    requires key == "" || !HasEmptyPair(kvs)
    ensures NoEmptyPiece(Rebuilt(kvs, key, value))
  {
    if kvs != [] {
      var n := |kvs| - 1;
      assert key == "" || !HasEmptyPair(kvs[..n]) by {
        assert forall i :: 0 <= i < n ==> kvs[..n][i] == kvs[i];
      }
      RebuiltNoEmptyPiece(kvs[..n], key, value);
      var pre := Rebuilt(kvs[..n], key, value);
      var last := Rewrite(kvs[n], key, value);
      assert key == "" || kvs[n] != ("", "");
      assert NoEmptyPiece(last);
      assert forall i :: 0 <= i < |pre + last| ==> (pre + last)[i] == if i < |pre| then pre[i] else last[i - |pre|];
    }
  }

  lemma {:induction false} RebuiltStable(kvs: seq<(string, string)>, key: string, value: Option<string>)
    ensures forall i :: 0 <= i < |Rebuilt(kvs, key, value)| ==> Stable(Rebuilt(kvs, key, value)[i], key, value)
  {
    if kvs != [] {
      var n := |kvs| - 1;
      RebuiltStable(kvs[..n], key, value);
      var pre := Rebuilt(kvs[..n], key, value);
      var last := Rewrite(kvs[n], key, value);
      assert forall i :: 0 <= i < |pre + last| ==> (pre + last)[i] == if i < |pre| then pre[i] else last[i - |pre|];
    }
  }

  /** The rebuilt pieces mention the key exactly when it was there and a
      value is written for it. */
  lemma {:induction false} RebuiltHasKey(kvs: seq<(string, string)>, key: string, value: Option<string>)
    ensures HasKey(DecodeAll(Rebuilt(kvs, key, value)), key) <==> WritesPiece(key, value) && HasKey(kvs, key)
  {
    if kvs != [] {
      var n := |kvs| - 1;
      var pre := Rebuilt(kvs[..n], key, value);
      var last := Rewrite(kvs[n], key, value);
      RebuiltHasKey(kvs[..n], key, value);
      DecodeAllAppend(pre, last);
      HasKeyAppend(DecodeAll(pre), DecodeAll(last), key);
      Seqs.FrontLast(kvs);
      HasKeyAppend(kvs[..n], [kvs[n]], key);
      HasKeySingle(kvs[n], key);
      RewriteHasKey(kvs[n], key, value);
    }
  }

  lemma {:induction false} DecodeAllAppend(ps: seq<Param>, qs: seq<Param>)
    ensures DecodeAll(ps + qs) == DecodeAll(ps) + DecodeAll(qs)
    decreases |qs|
  {
    if qs == [] {
      assert ps + qs == ps;
    } else {
      var n := |qs| - 1;
      assert (ps + qs)[..|ps + qs| - 1] == ps + qs[..n];
      assert (ps + qs)[|ps + qs| - 1] == qs[n];
      DecodeAllAppend(ps, qs[..n]);
      Seqs.ConcatAssoc(DecodeAll(ps), DecodeAll(qs[..n]),
                       if qs[n] == KeyOnly("") then [] else [Decode(qs[n])]);
    }
  }

  /** Every piece of a new query is written back unchanged by a second call
      with the same non-empty or absent value. */
  lemma NewQueryStable(kvs: seq<(string, string)>, key: string, value: Option<string>)
    requires value != Some("")
    requires key == "" || !HasEmptyPair(kvs)
    ensures NoEmptyPiece(NewQuery(kvs, key, value))
    ensures forall i :: 0 <= i < |NewQuery(kvs, key, value)| ==> Stable(NewQuery(kvs, key, value)[i], key, value)
  {
    var pre := Rebuilt(kvs, key, value);
    var tail := if HasKey(kvs, key) || value.None? then [] else [Pair(key, value.value)];
    RebuiltStable(kvs, key, value);
    RebuiltNoEmptyPiece(kvs, key, value);
    assert forall i :: 0 <= i < |pre + tail| ==> (pre + tail)[i] == if i < |pre| then pre[i] else tail[i - |pre|];
  }

  /** A new query mentions the key exactly when a value was given, except
      that an empty value replacing an empty key leaves only the empty piece. */
  lemma NewQueryHasKey(kvs: seq<(string, string)>, key: string, value: Option<string>)
    ensures HasKey(DecodeAll(NewQuery(kvs, key, value)), key) <==> WritesPiece(key, value) || (value.Some? && !HasKey(kvs, key))
  {
    var pre := Rebuilt(kvs, key, value);
    var tail := if HasKey(kvs, key) || value.None? then [] else [Pair(key, value.value)];
    RebuiltHasKey(kvs, key, value);
    DecodeAllAppend(pre, tail);
    HasKeyAppend(DecodeAll(pre), DecodeAll(tail), key);
    if tail != [] {
      assert DecodeAll(tail) == [(key, value.value)];
      HasKeySingle((key, value.value), key);
    } else {
      assert DecodeAll(tail) == [];
    }
  }

  /** A query left empty by a rewrite came from one without a value. */
  lemma EmptyQueryNoValue(ps: seq<Param>, key: string, value: Option<string>)
    requires value != Some("")
    requires ps == [] || ps == [KeyOnly("")]
    requires forall i :: 0 <= i < |ps| ==> Stable(ps[i], key, value)
    requires HasKey(DecodeAll(ps), key) <==> value.Some?
    ensures value.None?
  {
  }

  /** A second call with the same value rebuilds the same pieces, or
      none when the first left no query. */
  lemma SecondPass(u: Url, key: string, value: Option<string>)
    requires value != Some("")
    requires key == "" || !HasEmptyPair(QueryPairs(u))
    ensures var ps := NewQuery(QueryPairs(u), key, value);
      NewQuery(QueryPairs(QueryParamSpec(u, key, value)), key, value) == if QueryText(Written(ps)) == "" then [] else ps
  {
    var ps := NewQuery(QueryPairs(u), key, value);
    if QueryText(Written(ps)) == "" {
      SecondPassEmpty(u, key, value);
    } else {
      SecondPassKept(u, key, value);
    }
  }

  lemma SecondPassEmpty(u: Url, key: string, value: Option<string>)
    requires value != Some("")
    requires key == "" || !HasEmptyPair(QueryPairs(u))
    requires QueryText(Written(NewQuery(QueryPairs(u), key, value))) == ""
    ensures NewQuery(QueryPairs(QueryParamSpec(u, key, value)), key, value) == []
  {
    var ps := NewQuery(QueryPairs(u), key, value);
    var out := QueryParamSpec(u, key, value);
    NewQueryStable(QueryPairs(u), key, value);
    WrittenKeeps(ps);
    JoinEmpty(ps);
    NewQueryHasKey(QueryPairs(u), key, value);
    EmptyQueryNoValue(ps, key, value);
    assert QueryPairs(out) == [];
    assert NewQuery([], key, value) == [];
  }

  lemma SecondPassKept(u: Url, key: string, value: Option<string>)
    requires value != Some("")
    requires key == "" || !HasEmptyPair(QueryPairs(u))
    requires QueryText(Written(NewQuery(QueryPairs(u), key, value))) != ""
    ensures NewQuery(QueryPairs(QueryParamSpec(u, key, value)), key, value) == NewQuery(QueryPairs(u), key, value)
  {
    var ps := NewQuery(QueryPairs(u), key, value);
    NewQueryStable(QueryPairs(u), key, value);
    NewQueryHasKey(QueryPairs(u), key, value);
    KeptQueryPairs(u, key, value);
    StableQueryRebuilt(ps, key, value);
  }

  /** Steps of the lemma above. */
  lemma KeptQueryPairs(u: Url, key: string, value: Option<string>)
    requires QueryText(Written(NewQuery(QueryPairs(u), key, value))) != ""
    ensures QueryPairs(QueryParamSpec(u, key, value)) == DecodeAll(NewQuery(QueryPairs(u), key, value))
  {
    var ps := NewQuery(QueryPairs(u), key, value);
    DecodeWritten(ps);
    assert QueryParamSpec(u, key, value).query == Some(Written(ps));
  }

  lemma StableQueryRebuilt(ps: seq<Param>, key: string, value: Option<string>)
    requires NoEmptyPiece(ps)
    requires forall i :: 0 <= i < |ps| ==> Stable(ps[i], key, value)
    requires value.Some? ==> HasKey(DecodeAll(ps), key)
    ensures NewQuery(DecodeAll(ps), key, value) == ps
  {
    RebuiltOfStable(ps, key, value);
  }

  /** Applying the same rewrite twice changes nothing, unless the key was
      absent and the value is empty (the appended `key=` then comes back as
      the bare `key`), or an `=` pair under another key is written back as an
      empty piece after others (which the second call drops). */
  lemma QueryParamIdempotent(u: Url, key: string, value: Option<string>)
    requires value != Some("")
    requires key == "" || !HasEmptyPair(QueryPairs(u))
    ensures QueryParamSpec(QueryParamSpec(u, key, value), key, value) == QueryParamSpec(u, key, value)
  {
    var ps := NewQuery(QueryPairs(u), key, value);
    NewQueryStable(QueryPairs(u), key, value);
    WrittenKeeps(ps);
    SecondPass(u, key, value);
  }

  /** An absent key with an empty value: the first call leaves `key=`, the
      second rewrites it to `key`. */
  lemma QueryParamEmptyValueExample()
    ensures var u := Url("https://example.com", "/", None, None);
      && QueryParamSpec(u, "x", Some("")).query == Some([Pair("x", "")])
      && QueryParamSpec(QueryParamSpec(u, "x", Some("")), "x", Some("")).query == Some([KeyOnly("x")])
  {
    EmptyValueAppended();
    EmptyValueRead();
    EmptyValueRewritten();
  }

  /** Steps of the example above, one unfolding each. */
  lemma EmptyValueAppended()
    ensures Written(NewQuery([], "x", Some(""))) == [Pair("x", "")]
    ensures QueryText([Pair("x", "")]) == "x="
  {
    assert !HasKey([], "x");
    assert NewQuery([], "x", Some("")) == [Pair("x", "")];
    WrittenKeeps([Pair("x", "")]);
  }

  lemma EmptyValueRead()
    ensures QueryPairs(Url("https://example.com", "/", Some([Pair("x", "")]), None)) == [("x", "")]
  {
    assert [Pair("x", "")][..0] == [];
  }

  lemma EmptyValueRewritten()
    ensures Written(NewQuery([("x", "")], "x", Some(""))) == [KeyOnly("x")]
    ensures QueryText([KeyOnly("x")]) == "x"
  {
    var kvs := [("x", "")];
    HasKeySingle(("x", ""), "x");
    assert Rebuilt(kvs, "x", Some("")) == Rebuilt([], "x", Some("")) + Rewrite(("x", ""), "x", Some("")) by {
      assert kvs[..0] == [];
    }
    assert NewQuery(kvs, "x", Some("")) == [KeyOnly("x")];
    WrittenKeeps([KeyOnly("x")]);
  }

  /** Empty pieces are skipped when the query is read: `a=1&&b=2`. */
  lemma DecodeAllSkipExample()
    ensures DecodeAll([Pair("a", "1"), KeyOnly(""), Pair("b", "2")]) == [("a", "1"), ("b", "2")]
  {
    var ps := [Pair("a", "1"), KeyOnly(""), Pair("b", "2")];
    assert ps[..2][..1] == [Pair("a", "1")];
    assert [Pair("a", "1")][..0] == [];
  }

  /** Steps of the examples below, one unfolding each. */
  lemma LeadingPairRead()
    ensures QueryPairs(Url("https://example.com", "/", Some([Pair("", ""), Pair("a", "1")]), None)) == [("", ""), ("a", "1")]
  {
    var ps := [Pair("", ""), Pair("a", "1")];
    assert ps[..1] == [Pair("", "")] && [Pair("", "")][..0] == [];
  }

  lemma LeadingPairWritten()
    ensures Written(NewQuery([("", ""), ("a", "1")], "b", None)) == [Pair("a", "1")]
  {
    var kvs := [("", ""), ("a", "1")];
    assert kvs[..1] == [("", "")] && kvs[..1][..0] == [];
    assert Rebuilt(kvs[..1], "b", None) == [KeyOnly("")];
    var q := [KeyOnly(""), Pair("a", "1")];
    assert NewQuery(kvs, "b", None) == q;
    assert q[..1] == [KeyOnly("")] && [KeyOnly("")][..0] == [];
  }

  lemma EmptyPairsRead()
    ensures QueryPairs(Url("https://example.com", "/", Some([Pair("", ""), Pair("", "")]), None)) == [("", ""), ("", "")]
  {
    var ps := [Pair("", ""), Pair("", "")];
    assert ps[..1] == [Pair("", "")] && [Pair("", "")][..0] == [];
  }

  lemma EmptyPairsWritten()
    ensures QueryText(Written(NewQuery([("", ""), ("", "")], "b", None))) == ""
  {
    var kvs := [("", ""), ("", "")];
    assert kvs[..1] == [("", "")] && kvs[..1][..0] == [];
    assert Rebuilt(kvs[..1], "b", None) == [KeyOnly("")];
    var q := [KeyOnly(""), KeyOnly("")];
    assert NewQuery(kvs, "b", None) == q;
    assert q[..1] == [KeyOnly("")] && [KeyOnly("")][..0] == [];
    assert Written(q) == [];
  }

  lemma TrailingPairRead()
    ensures QueryPairs(Url("https://example.com", "/", Some([Pair("a", "1"), Pair("", "")]), None)) == [("a", "1"), ("", "")]
  {
    var ps := [Pair("a", "1"), Pair("", "")];
    assert ps[..1] == [Pair("a", "1")] && [Pair("a", "1")][..0] == [];
  }

  lemma TrailingPairWritten()
    ensures Written(NewQuery([("a", "1"), ("", "")], "b", None)) == [Pair("a", "1"), KeyOnly("")]
  {
    var kvs := [("a", "1"), ("", "")];
    assert kvs[..1] == [("a", "1")] && kvs[..1][..0] == [];
    assert Rebuilt(kvs[..1], "b", None) == [Pair("a", "1")];
    assert NewQuery(kvs, "b", None) == [Pair("a", "1"), KeyOnly("")];
    WrittenKeeps([Pair("a", "1"), KeyOnly("")]);
  }

  lemma TrailingPieceText()
    ensures QueryText([Pair("a", "1"), KeyOnly("")]) == "a=1&"
  {
    var q := [Pair("a", "1"), KeyOnly("")];
    assert q[..1] == [Pair("a", "1")];
  }

  lemma TrailingPieceRead()
    ensures DecodeAll([Pair("a", "1"), KeyOnly("")]) == [("a", "1")]
  {
    var q := [Pair("a", "1"), KeyOnly("")];
    assert q[..1] == [Pair("a", "1")] && [Pair("a", "1")][..0] == [];
  }

  lemma PairKept()
    ensures Written(NewQuery([("a", "1")], "b", None)) == [Pair("a", "1")]
  {
    assert [("a", "1")][..0] == [];
    WrittenKeeps([Pair("a", "1")]);
  }

  lemma EmptyPairsDropQuery()
    ensures QueryParamSpec(Url("https://example.com", "/", Some([Pair("", ""), Pair("", "")]), None), "b", None).query == None
  {
    EmptyPairsRead();
    EmptyPairsWritten();
  }

  /** No separator before the first written piece: `=&a=1` without `b` is
      written as `a=1`, which a second call keeps, and `=&=` leaves no query. */
  lemma QueryParamLeadingEmptyExample()
    ensures var u := Url("https://example.com", "/", Some([Pair("", ""), Pair("a", "1")]), None);
      && QueryParamSpec(u, "b", None).query == Some([Pair("a", "1")])
      && QueryText([Pair("a", "1")]) == "a=1"
      && QueryParamSpec(QueryParamSpec(u, "b", None), "b", None) == QueryParamSpec(u, "b", None)
    ensures QueryParamSpec(Url("https://example.com", "/", Some([Pair("", ""), Pair("", "")]), None), "b", None).query == None
  {
    LeadingPairRead();
    LeadingPairWritten();
    EmptyPairsDropQuery();
    PairKeptQuery();
    var u := Url("https://example.com", "/", Some([Pair("", ""), Pair("a", "1")]), None);
    assert QueryParamSpec(u, "b", None) == Url("https://example.com", "/", Some([Pair("a", "1")]), None);
  }

  lemma PairKeptQuery()
    ensures var v := Url("https://example.com", "/", Some([Pair("a", "1")]), None);
      QueryParamSpec(v, "b", None) == v && QueryText([Pair("a", "1")]) == "a=1"
  {
    PairKept();
    assert QueryPairs(Url("https://example.com", "/", Some([Pair("a", "1")]), None)) == [("a", "1")] by {
      assert [Pair("a", "1")][..0] == [];
    }
  }

  /** An `=` piece under another key after others: `a=1&=` without `b` is
      written as `a=1&`, whose empty piece the second call drops (`a=1`). */
  lemma QueryParamEmptyPairExample()
    ensures var u := Url("https://example.com", "/", Some([Pair("a", "1"), Pair("", "")]), None);
      && QueryParamSpec(u, "b", None).query == Some([Pair("a", "1"), KeyOnly("")])
      && QueryText([Pair("a", "1"), KeyOnly("")]) == "a=1&"
      && QueryParamSpec(QueryParamSpec(u, "b", None), "b", None).query == Some([Pair("a", "1")])
  {
    TrailingPairRead();
    TrailingPairWritten();
    TrailingPieceText();
    TrailingPieceRead();
    PairKept();
    var u := Url("https://example.com", "/", Some([Pair("a", "1"), Pair("", "")]), None);
    var out := QueryParamSpec(u, "b", None);
    assert out.query == Some([Pair("a", "1"), KeyOnly("")]);
    assert QueryPairs(out) == [("a", "1")];
  }

  /** `UrlExt::with_path`: the path replaced (set_path's normalisation is not
      modelled). */
  function WithPath(u: Url, path: string): (r: Url)
    ensures r.path == path
  {
    u.(path := path)
  }

  /** What comes after the path: `?` and the query, `#` and the fragment. */
  function QueryAndFragment(u: Url): string {
    (if u.query.Some? then "?" + QueryText(u.query.value) else "")
      + (if u.fragment.Some? then "#" + u.fragment.value else "")
  }

  /** `UrlExt::path_and_query`: the URL from its path on, query and fragment
      included. */
  function PathAndQuery(u: Url): (r: string)
    ensures StartsWith(r, u.path)
  {
    u.path + QueryAndFragment(u)
  }

  /** Replacing the path and rewriting the query touch disjoint parts. */
  lemma WithPathCommutes(u: Url, path: string, key: string, value: Option<string>)
    ensures QueryParamSpec(WithPath(u, path), key, value) == WithPath(QueryParamSpec(u, key, value), path)
  {
    assert QueryPairs(WithPath(u, path)) == QueryPairs(u);
  }

  /** Only the path part of path_and_query changes with the path. */
  lemma PathAndQueryWithPath(u: Url, path: string)
    ensures PathAndQuery(WithPath(u, path)) == path + PathAndQuery(u)[|u.path|..]
  {
    assert QueryAndFragment(WithPath(u, path)) == QueryAndFragment(u);
    assert PathAndQuery(u)[|u.path|..] == QueryAndFragment(u);
  }

  // ---------------------------------------------------------------------------
  // Paths (Unix separators)

  /** A `Component::Normal`: not empty (a doubled or trailing separator), not
      `.` and not `..`. */
  predicate IsNormal(c: string) {
    c != "" && c != "." && c != ".."
  }

  /** The normal components of a path, in order. */
  function NormalComponents(path: string): (cs: seq<string>)
    ensures forall i :: 0 <= i < |cs| ==> IsNormal(cs[i]) && '/' !in cs[i]
  {
    Seqs.Filter(Split(path, '/'), IsNormal)
  }

  /** `PathBuf::push` of a relative component: a separator first unless the
      buffer is empty or already ends in one. */
  function Push(buf: string, c: string): string {
    if buf == [] || buf[|buf| - 1] == '/' then buf + c else buf + "/" + c
  }

  function PushAll(buf: string, cs: seq<string>): string
    decreases |cs|
  {
    if cs == [] then buf else Push(PushAll(buf, cs[..|cs| - 1]), cs[|cs| - 1])
  }

  /** `join_normalized`: the base extended by the path's normal components only. */
  function JoinNormalized(base: string, path: string): string {
    PushAll(base, NormalComponents(path))
  }

  lemma PushComponents(buf: string, c: string)
    requires IsNormal(c) && '/' !in c
    ensures NormalComponents(Push(buf, c)) == NormalComponents(buf) + [c]
    ensures StartsWith(Push(buf, c), buf)
  {
    if buf == [] {
      assert Split(c, '/') == [c];
      assert Split("", '/') == [""];
      assert Seqs.Filter([""], IsNormal) == [];
      assert Seqs.Filter([c], IsNormal) == [c] by {
        assert [c][..0] == [];
      }
    } else if buf[|buf| - 1] == '/' {
      var a := buf[..|buf| - 1];
      assert buf == a + ['/'] + "";
      SplitAppend(a, '/', "");
      assert buf + c == a + ['/'] + c;
      SplitAppend(a, '/', c);
      Seqs.FilterAppend(Split(a, '/'), [""], IsNormal);
      Seqs.FilterAppend(Split(a, '/'), [c], IsNormal);
      assert Seqs.Filter([""], IsNormal) == [] by { assert [""][..0] == []; }
      assert Seqs.Filter([c], IsNormal) == [c] by { assert [c][..0] == []; }
    } else {
      assert buf + "/" + c == buf + ['/'] + c;
      SplitAppend(buf, '/', c);
      Seqs.FilterAppend(Split(buf, '/'), [c], IsNormal);
      assert Seqs.Filter([c], IsNormal) == [c] by { assert [c][..0] == []; }
    }
  }

  lemma {:induction false} PushAllComponents(buf: string, cs: seq<string>)
    requires forall i :: 0 <= i < |cs| ==> IsNormal(cs[i]) && '/' !in cs[i]
    ensures NormalComponents(PushAll(buf, cs)) == NormalComponents(buf) + cs
    ensures StartsWith(PushAll(buf, cs), buf)
    decreases |cs|
  {
    if cs != [] {
      var n := |cs| - 1;
      PushAllComponents(buf, cs[..n]);
      PushComponents(PushAll(buf, cs[..n]), cs[n]);
      Seqs.ConcatAssoc(NormalComponents(buf), cs[..n], [cs[n]]);
      Seqs.FrontLast(cs);
      StartsWithTrans(PushAll(buf, cs), PushAll(buf, cs[..n]), buf);
    }
  }

  /** The joined path starts with the base, and its normal components are
      the base's followed by exactly the path's: a `..`, a `.` or a root in
      the path adds nothing and cannot climb out of the base. */
  lemma JoinNormalizedComponents(base: string, path: string)
    ensures StartsWith(JoinNormalized(base, path), base)
    ensures NormalComponents(JoinNormalized(base, path)) == NormalComponents(base) + NormalComponents(path)
  {
    PushAllComponents(base, NormalComponents(path));
  }

  /** Joining a path once normalised gives the same result. */
  lemma JoinNormalizedIdempotent(base: string, path: string)
    ensures JoinNormalized(base, JoinNormalized("", path)) == JoinNormalized(base, path)
  {
    JoinNormalizedComponents("", path);
    assert NormalComponents("") == [] by {
      assert Split("", '/') == [""];
      assert [""][..0] == [];
    }
    assert [] + NormalComponents(path) == NormalComponents(path);
  }

  /** Without a trailing separator, pushing adds one. */
  lemma PushSeparates(buf: string, c: string)
    requires buf != [] && buf[|buf| - 1] != '/'
    ensures Push(buf, c) == buf + "/" + c
  {
  }

  lemma SrvEtc()
    ensures "/srv" + "/" + "etc" == "/srv/etc"
  {
  }

  /** A parent step cannot leave the base: `..` is dropped. */
  lemma JoinNormalizedExample()
    ensures JoinNormalized("/srv", "../etc") == "/srv/etc"
  {
    EtcComponents();
    assert |"/srv"| == 4 && "/srv"[3] == 'v';
    JoinOneComponent("/srv", "../etc", "etc");
    SrvEtc();
  }

  /** A path that normalises to one component is joined behind one separator. */
  lemma JoinOneComponent(base: string, path: string, c: string)
    requires NormalComponents(path) == [c]
    requires base != [] && base[|base| - 1] != '/'
    ensures JoinNormalized(base, path) == base + "/" + c
  {
    assert [c][..0] == [];
    assert PushAll(base, [c]) == Push(base, c);
    PushSeparates(base, c);
  }

  lemma EtcComponents()
    ensures NormalComponents("../etc") == ["etc"]
  {
    assert Split("..", '/') == [".."];
    SplitAppend("..", '/', "etc");
    assert "../etc" == ".." + ['/'] + "etc";
    assert Split("../etc", '/') == ["..", "etc"];
    assert ["..", "etc"][..1] == [".."];
    assert [".."][..0] == [];
  }

}
