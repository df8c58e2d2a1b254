/** `parseMetadataString` of backend/tus-server.js: the tus `Upload-Metadata` header is a
    comma-separated list of `key value` pairs whose values are base64. A pair counts only
    when splitting it on ' ' gives exactly two parts; a later pair overwrites an earlier
    one with the same key. The base64 decoder (`Buffer.from(v, 'base64')` read as UTF-8,
    which never throws) is a parameter. */
module TusMetadata {
  import opened Wrappers
  import opened Text

  type Decoder = string -> string

  /** The effect of one pair on the map built so far. */
  function ApplyPair(m: map<string, string>, pair: string, decode: Decoder): map<string, string>
  {
    var parts := Split(pair, ' ');
    if |parts| == 2 then m[parts[0] := decode(parts[1])] else m
  }

  /** The map after the given pairs, taken left to right. */
  function PairsMap(pairs: seq<string>, decode: Decoder): map<string, string>
  {
    if pairs == [] then map[]
    else ApplyPair(PairsMap(pairs[..|pairs| - 1], decode), pairs[|pairs| - 1], decode)
  }

  /** The parsed header; an absent or empty header gives the empty map. */
  function Parse(header: Option<string>, decode: Decoder): map<string, string>
  {
    if header.None? || header.value == "" then map[] else PairsMap(Split(header.value, ','), decode)
  }

  /** The parser as the source writes it: a loop over the comma-separated pairs. */
  method ParseMetadataString(header: Option<string>, decode: Decoder) returns (m: map<string, string>)
    ensures m == Parse(header, decode)
  {
    m := map[];
    if header.None? || header.value == "" {
      return;
    }
    var pairs := Split(header.value, ',');
    var k := 0;
    while k < |pairs|
      invariant 0 <= k <= |pairs|
      invariant m == PairsMap(pairs[..k], decode)
    {
      var parts := Split(pairs[k], ' ');
      if |parts| == 2 {
        m := m[parts[0] := decode(parts[1])];
      }
      assert pairs[..k + 1][..k] == pairs[..k];
      k := k + 1;
    }
    assert pairs[..k] == pairs;
  }

  // ---------------------------------------------------------------- properties

  /** A well-formed `key value` pair splits into its key and its value. */
  lemma PairSplits(key: string, value: string)
    requires ' ' !in key && ' ' !in value
    ensures Split(key + " " + value, ' ') == [key, value]
  {
    SplitAppend(key, ' ', value);
    assert key + " " + value == key + [' '] + value;
    SplitNoSep(key, ' ');
    SplitNoSep(value, ' ');
  }

  /** Appending a well-formed pair sets its key to the decoded value, whatever came
      before: later pairs win. */
  lemma LaterPairWins(header: string, key: string, value: string, decode: Decoder)
    requires header != ""
    requires ' ' !in key && ',' !in key && ' ' !in value && ',' !in value
    ensures Parse(Some(header + "," + key + " " + value), decode)
         == Parse(Some(header), decode)[key := decode(value)]
  {
    var pair := key + " " + value;
    assert header + "," + key + " " + value == header + [','] + pair;
    SplitAppend(header, ',', pair);
    assert ',' !in pair;
    SplitNoSep(pair, ',');
    var xs := Split(header, ',');
    assert (xs + [pair])[..|xs|] == xs;
    PairSplits(key, value);
  }

  /** Appending a pair that does not split into exactly two parts changes nothing. */
  lemma MalformedPairIgnored(header: string, pair: string, decode: Decoder)
    requires header != "" && ',' !in pair
    requires |Split(pair, ' ')| != 2
    ensures Parse(Some(header + "," + pair), decode) == Parse(Some(header), decode)
  {
    assert header + "," + pair == header + [','] + pair;
    SplitAppend(header, ',', pair);
    SplitNoSep(pair, ',');
    var xs := Split(header, ',');
    assert (xs + [pair])[..|xs|] == xs;
  }

  /** The header a tus client sends for the given entries, with `encode` the base64 encoder. */
  function Serialize(entries: seq<(string, string)>, encode: string -> string): string
  {
    JoinWith(Pieces(entries, encode), ',')
  }

  function Pieces(entries: seq<(string, string)>, encode: string -> string): (r: seq<string>)
    ensures |r| == |entries|
  {
    seq(|entries|, i requires 0 <= i < |entries| => entries[i].0 + " " + encode(entries[i].1))
  }

  /** Keys and encoded values hold neither separator, and keys are distinct. */
  predicate Encodable(entries: seq<(string, string)>, encode: string -> string)
  {
    && (forall i :: 0 <= i < |entries| ==> ' ' !in entries[i].0 && ',' !in entries[i].0)
    && (forall i :: 0 <= i < |entries| ==> ' ' !in encode(entries[i].1) && ',' !in encode(entries[i].1))
    && (forall i, j :: 0 <= i < j < |entries| ==> entries[i].0 != entries[j].0)
  }

  /** Parsing a serialised header gives back every entry: the keys are exactly the
      entries' keys and each maps to its value, when decode inverts encode. */
  lemma ParseSerialize(entries: seq<(string, string)>, encode: string -> string, decode: Decoder)
    requires Encodable(entries, encode)
    requires forall i :: 0 <= i < |entries| ==> decode(encode(entries[i].1)) == entries[i].1
    ensures var m := Parse(Some(Serialize(entries, encode)), decode);
      && m.Keys == (set i | 0 <= i < |entries| :: entries[i].0)
      && forall i :: 0 <= i < |entries| ==> m[entries[i].0] == entries[i].1
  {
    var pieces := Pieces(entries, encode);
    if entries == [] {
      assert Serialize(entries, encode) == "";
    } else {
      forall i | 0 <= i < |pieces|
        ensures ',' !in pieces[i]
      {
        assert pieces[i] == entries[i].0 + " " + encode(entries[i].1);
      }
      SplitJoin(pieces, ',');
      JoinNonEmpty(pieces);
      PiecesMap(entries, encode, decode, |entries|);
      assert pieces[..|entries|] == pieces;
    }
  }

  /** One more piece sets one more key. */
  lemma PiecesMapStep(entries: seq<(string, string)>, encode: string -> string, decode: Decoder, k: nat)
    requires 0 < k <= |entries|
    requires ' ' !in entries[k - 1].0 && ' ' !in encode(entries[k - 1].1)
    ensures PairsMap(Pieces(entries, encode)[..k], decode)
         == PairsMap(Pieces(entries, encode)[..k - 1], decode)[entries[k - 1].0 := decode(encode(entries[k - 1].1))]
  {
    var pieces := Pieces(entries, encode);
    var e := entries[k - 1];
    assert pieces[..k][..k - 1] == pieces[..k - 1];
    assert pieces[..k][k - 1] == e.0 + " " + encode(e.1);
    PairSplits(e.0, encode(e.1));
  }

  lemma KeysSnoc(entries: seq<(string, string)>, k: nat)
    requires 0 < k <= |entries|
    ensures (set i | 0 <= i < k :: entries[i].0) == (set i | 0 <= i < k - 1 :: entries[i].0) + {entries[k - 1].0}
  {
  }

  lemma JoinNonEmpty(pieces: seq<string>)
    requires |pieces| >= 1 && pieces[0] != ""
    ensures JoinWith(pieces, ',') != ""
  {
  }

  lemma {:induction false} PiecesMap(entries: seq<(string, string)>, encode: string -> string, decode: Decoder, k: nat)
    requires k <= |entries|
    requires Encodable(entries, encode)
    requires forall i :: 0 <= i < |entries| ==> decode(encode(entries[i].1)) == entries[i].1
    ensures var m := PairsMap(Pieces(entries, encode)[..k], decode);
      && m.Keys == (set i | 0 <= i < k :: entries[i].0)
      && forall i :: 0 <= i < k ==> m[entries[i].0] == entries[i].1
  {
    if k > 0 {
      PiecesMap(entries, encode, decode, k - 1);
      PiecesMapStep(entries, encode, decode, k);
      KeysSnoc(entries, k);
      var e := entries[k - 1];
      var m := PairsMap(Pieces(entries, encode)[..k], decode);
      forall i | 0 <= i < k
        ensures m[entries[i].0] == entries[i].1
      {
        if i < k - 1 {
          assert entries[i].0 != e.0;
        }
      }
    }
  }
}
