/** dic2str and str2dic (lib/auxiliary/data_ops.py): a dictionary as KEY:VALUE,KEY:VALUE. */
module DictText {
  import opened Strings

  /** A dictionary as its items in insertion order. */
  type Items = seq<(string, string)>

  datatype Result<T> = Ok(value: T) | IndexError

  /** A dictionary has each key once. */
  predicate Distinct(items: Items) {
    forall i, j :: 0 <= i < j < |items| ==> items[i].0 != items[j].0
  }

  function AsMap(items: Items): map<string, string> {
    if items == [] then map[] else AsMap(items[..|items| - 1])[items[|items| - 1].0 := items[|items| - 1].1]
  }

  function Pair(item: (string, string)): string {
    item.0 + [':'] + item.1
  }

  /** The text built back to front, with the comma that is cut off at the end. */
  function Backwards(items: Items): string {
    if items == [] then ""
    else Pair(items[|items| - 1]) + [','] + Backwards(items[..|items| - 1])
  }

  function Dic2Str(items: Items): string {
    var text := Backwards(items);
    if text == "" then "" else text[..|text| - 1]
  }

  method ComputeDic2Str(items: Items) returns (text: string)
    ensures text == Dic2Str(items)
  {
    text := "";
    for i := 0 to |items|
      invariant text == Backwards(items[..i])
    {
      assert items[..i + 1][..i] == items[..i];
      text := items[i].0 + [':'] + items[i].1 + [','] + text;
      assert text == Pair(items[i]) + [','] + Backwards(items[..i]);
    }
    assert items[..|items|] == items;
    text := if text == "" then "" else text[..|text| - 1];
  }

  /** One KEY:VALUE piece; further colons and what follows them are ignored. */
  function ReadPair(piece: string): Result<(string, string)> {
    var kv := Split(piece, ':');
    if |kv| < 2 then IndexError else Ok((kv[0], kv[1]))
  }

  /** The pieces read from left to right, later keys overwriting earlier ones. */
  function ReadPairs(pieces: seq<string>): Result<map<string, string>> {
    if pieces == [] then Ok(map[])
    else
      var front := ReadPairs(pieces[..|pieces| - 1]);
      var pair := ReadPair(pieces[|pieces| - 1]);
      if front.Ok? && pair.Ok? then Ok(front.value[pair.value.0 := pair.value.1]) else IndexError
  }

  function Str2Dic(text: string): Result<map<string, string>> {
    ReadPairs(Split(text, ','))
  }

  method ComputeStr2Dic(text: string) returns (r: Result<map<string, string>>)
    ensures r == Str2Dic(text)
  {
    var pieces := Split(text, ',');
    var dictionary: map<string, string> := map[];
    for i := 0 to |pieces|
      invariant ReadPairs(pieces[..i]) == Ok(dictionary)
    {
      assert pieces[..i + 1][..i] == pieces[..i];
      var kv := Split(pieces[i], ':');
      if |kv| < 2 {
        ErrorStays(pieces, i + 1, |pieces|);
        assert pieces[..|pieces|] == pieces;
        return IndexError;
      }
      dictionary := dictionary[kv[0] := kv[1]];
    }
    assert pieces[..|pieces|] == pieces;
    return Ok(dictionary);
  }

  lemma {:induction false} ErrorStays(pieces: seq<string>, m: nat, n: nat)
    requires m <= n <= |pieces| && ReadPairs(pieces[..m]) == IndexError
    ensures ReadPairs(pieces[..n]) == IndexError
  {
    if m < n {
      ErrorStays(pieces, m, n - 1);
      assert pieces[..n][..n - 1] == pieces[..n - 1];
    }
  }

  // ---------------------------------------------------------------- the round trip

  predicate Plain(s: string) {
    ',' !in s && ':' !in s
  }

  predicate AllPlain(items: Items) {
    forall i :: 0 <= i < |items| ==> Plain(items[i].0) && Plain(items[i].1)
  }

  /** The pieces of the text: the items from the last to the first. */
  function Pieces(items: Items): seq<string> {
    if items == [] then [] else [Pair(items[|items| - 1])] + Pieces(items[..|items| - 1])
  }

  lemma {:induction false} TextIsJoined(items: Items)
    requires items != []
    ensures Pieces(items) != [] && Backwards(items) == Join(Pieces(items), ',') + [',']
    ensures Dic2Str(items) == Join(Pieces(items), ',')
  {
    var front := items[..|items| - 1];
    if front == [] {
      assert Pieces(items) == [Pair(items[0])];
      assert Backwards(front) == "";
      assert Pair(items[0]) + [','] + "" == Pair(items[0]) + [','];
    } else {
      TextIsJoined(front);
      var last := Pair(items[|items| - 1]);
      assert Pieces(items)[1..] == Pieces(front);
      assert last + [','] + (Join(Pieces(front), ',') + [',']) == (last + [','] + Join(Pieces(front), ',')) + [','];
    }
    assert (Join(Pieces(items), ',') + [','])[..|Join(Pieces(items), ',')|] == Join(Pieces(items), ',');
  }

  lemma {:induction false} PiecesPlain(items: Items)
    requires AllPlain(items)
    ensures |Pieces(items)| == |items|
    ensures forall i :: 0 <= i < |items| ==>
      ',' !in Pieces(items)[i] && ReadPair(Pieces(items)[i]) == Ok(items[|items| - 1 - i])
  {
    if items != [] {
      var last := items[|items| - 1];
      PiecesPlain(items[..|items| - 1]);
      SplitFirst(last.0, ':', last.1);
      SplitPlain(last.1, ':');
      assert Split(Pair(last), ':') == [last.0, last.1];
    }
  }

  /** The text of a dictionary: KEY:VALUE pieces from the last item to the first. */
  lemma {:induction false} TextOfItems(items: Items, item: (string, string))
    ensures Dic2Str([]) == ""
    ensures Dic2Str([item]) == item.0 + ":" + item.1
    ensures items != [] ==> Dic2Str(items + [item]) == item.0 + ":" + item.1 + "," + Dic2Str(items)
  {
    var all := items + [item];
    assert all[..|items|] == items && [item][..0] == [];
    TextIsJoined(all);
    TextIsJoined([item]);
    assert Pieces([item]) == [Pair(item)];
    if items != [] {
      TextIsJoined(items);
      assert Pieces(all)[1..] == Pieces(items);
    }
  }

  /** What reading one more piece does: a piece without a colon is an index error, and so is
      anything after one; otherwise what stands before the first colon is set to what stands
      between it and the next, whatever it was before. */
  lemma {:induction false} ReadsPiece(text: string, key: string, value: string, ignored: string)
    requires ',' !in text + key + value + ignored && ':' !in text + key + value
    ensures Str2Dic(text) == IndexError
    ensures Str2Dic(key + ":" + value) == Ok(map[key := value])
    ensures Str2Dic(key + ":" + value + ":" + ignored) == Ok(map[key := value])
  {
    OnePiece(text);
    SplitPlain(text, ':');
    OnePiece(key + ":" + value);
    SplitFirst(key, ':', value);
    SplitPlain(value, ':');
    OnePiece(key + ":" + value + ":" + ignored);
    SplitFirst(value, ':', ignored);
    SplitFirst(key, ':', value + ":" + ignored);
    assert key + ":" + value + ":" + ignored == key + [':'] + (value + ":" + ignored);
    assert value + ":" + ignored == value + [':'] + ignored;
    assert Split(key + ":" + value + ":" + ignored, ':') == [key] + ([value] + Split(ignored, ':'));
  }

  lemma {:induction false} OnePiece(text: string)
    requires ',' !in text
    ensures Str2Dic(text) == ReadPairs([text])
    ensures Str2Dic(text) == var p := ReadPair(text); if p.Ok? then Ok(map[p.value.0 := p.value.1]) else IndexError
  {
    SplitPlain(text, ',');
    assert [text][..0] == [];
  }

  lemma {:induction false} ReadsMore(text: string, piece: string)
    requires ',' !in piece
    ensures Str2Dic(text + "," + piece) ==
      if Str2Dic(text).IndexError? || Str2Dic(piece).IndexError? then IndexError
      else Ok(Str2Dic(text).value + Str2Dic(piece).value)
  {
    OnePiece(piece);
    SplitLast(text, ',', piece);
    var pieces := Split(text, ',');
    assert (pieces + [piece])[..|pieces|] == pieces && (pieces + [piece])[|pieces|] == piece;
    var front, pair := ReadPairs(pieces), ReadPair(piece);
    if front.Ok? && pair.Ok? {
      assert front.value[pair.value.0 := pair.value.1] == front.value + map[pair.value.0 := pair.value.1];
    }
  }

  /** Reading the items from the last to the first gives the same dictionary. */
  lemma {:induction false} ReadsBackwards(items: Items, n: nat)
    requires AllPlain(items) && Distinct(items) && n <= |items|
    ensures |Pieces(items)| == |items| && ReadPairs(Pieces(items)[..n]).Ok?
    ensures ReadPairs(Pieces(items)[..n]).value == AsMap(items[|items| - n..])
  {
    PiecesPlain(items);
    if n == 0 {
      assert items[|items|..] == [];
    } else {
      ReadsBackwards(items, n - 1);
      assert Pieces(items)[..n][..n - 1] == Pieces(items)[..n - 1];
      var rest := items[|items| - n..];
      assert rest[1..] == items[|items| - (n - 1)..];
      PrependItem(rest);
    }
  }

  lemma {:induction false} PrependItem(items: Items)
    requires items != [] && Distinct(items)
    ensures AsMap(items) == AsMap(items[1..])[items[0].0 := items[0].1]
  {
    if |items| == 1 {
      assert items[1..] == [] && items[..0] == [];
    } else {
      var front := items[..|items| - 1];
      PrependItem(front);
      assert front[1..] == items[1..][..|items| - 2];
      assert front[0] == items[0];
    }
  }

  lemma {:induction false} MapHolds(items: Items)
    requires Distinct(items)
    ensures AsMap(items).Keys == set i | 0 <= i < |items| :: items[i].0
    ensures forall i :: 0 <= i < |items| ==> items[i].0 in AsMap(items) && AsMap(items)[items[i].0] == items[i].1
  {
    if items != [] { MapHolds(items[..|items| - 1]); }
  }

  /** Whatever str2dic reads holds neither separator. */
  lemma {:induction false} ReadsPlain(pieces: seq<string>)
    requires forall i :: 0 <= i < |pieces| ==> ',' !in pieces[i]
    ensures ReadPairs(pieces).Ok? ==> forall k :: k in ReadPairs(pieces).value ==>
      Plain(k) && Plain(ReadPairs(pieces).value[k])
  {
    if pieces != [] && ReadPairs(pieces).Ok? {
      ReadsPlain(pieces[..|pieces| - 1]);
      var piece := pieces[|pieces| - 1];
      SplitPieces(piece, ':');
      var kv := Split(piece, ':');
      assert ',' !in kv[0] && ',' !in kv[1];
    }
  }

  /** The dictionary comes back exactly when it has an item and no key or value of it holds
      a separator: the empty one is read as a malformed pair. */
  lemma {:induction false} RoundTripExactly(items: Items)
    requires Distinct(items)
    ensures Str2Dic(Dic2Str(items)) == Ok(AsMap(items)) <==> items != [] && AllPlain(items)
  {
    if items == [] {
      assert Split("", ',') == [""];
      assert [""][..0] == [] && Split("", ':') == [""];
    } else if AllPlain(items) {
      PiecesPlain(items);
      TextIsJoined(items);
      SplitJoin(Pieces(items), ',');
      ReadsBackwards(items, |items|);
      assert Pieces(items)[..|items|] == Pieces(items) && items[0..] == items;
    } else {
      var pieces := Split(Dic2Str(items), ',');
      SplitPieces(Dic2Str(items), ',');
      ReadsPlain(pieces);
      MapHolds(items);
      var i :| 0 <= i < |items| && !(Plain(items[i].0) && Plain(items[i].1));
      assert items[i].0 in AsMap(items);
    }
  }
}
