/** `SaveableDictionary`: a `string -> float` map that is stored as one text
    token `#key:value#key:value...`.

    The value type is a parameter `V`; printing a value (`fmt`, the C# string
    interpolation of a float) and parsing one (`parse`, `Convert.ToSingle`)
    are parameters too, so that the format itself is modelled exactly and
    the float syntax is not. */
module SaveableDictionary {
  import opened Wrappers
  import opened Text

  datatype SaveableDictionary<V> = SaveableDictionary(dictionary: map<string, V>)

  /** Why `FromString` throws. */
  datatype DecodeError =
    | MissingValue(segment: string)   // `s.Split(':')[1]` is out of range
    | NotANumber(text: string)        // `Convert.ToSingle` rejects the text

  /** The parameterless constructor: an empty dictionary. */
  function NewSaveableDictionary<V>(): (d: SaveableDictionary<V>)
    ensures |d.dictionary| == 0
  {
    SaveableDictionary(map[])
  }

  /** A key the format can carry: it holds neither separator. */
  predicate ValidKey(k: string) {
    '#' !in k && ':' !in k
  }

  /** `order` is an enumeration of the keys of `m`: each key exactly once.
      The C# dictionary enumerates its keys in an order the code does not
      control, so encoding takes the order as a parameter. */
  predicate Enumerates<V>(order: seq<string>, m: map<string, V>) {
    && (forall k | k in order :: k in m)
    && (forall k | k in m :: k in order)
    && (forall i, j | 0 <= i < j < |order| :: order[i] != order[j])
  }

  /** The `key:value` text of one entry. */
  function Segment(k: string, text: string): string {
    k + [':'] + text
  }

  /** The entries' segments, in enumeration order. */
  function Segments<V>(m: map<string, V>, order: seq<string>, fmt: V -> string): (segs: seq<string>)
    requires forall k | k in order :: k in m
    ensures |segs| == |order|
    ensures forall i | 0 <= i < |order| :: segs[i] == Segment(order[i], fmt(m[order[i]]))
  {
    seq(|order|, i requires 0 <= i < |order| => Segment(order[i], fmt(m[order[i]])))
  }

  /** `ToString`: appends `#key:value` for every entry in turn. The result is
      one `#` followed by the segments joined with `#`, and nothing at all for
      an empty dictionary. */
  function Encode<V>(m: map<string, V>, order: seq<string>, fmt: V -> string): (r: string)
    requires forall k | k in order :: k in m
    ensures |order| == 0 ==> r == ""
    ensures |order| > 0 ==> r == "#" + Join(Segments(m, order, fmt), '#')
  {
    if |order| == 0 then ""
    else
      var rest := Encode(m, order[1..], fmt);
      var segs := Segments(m, order, fmt);
      assert segs[1..] == Segments(m, order[1..], fmt);
      "#" + Segment(order[0], fmt(m[order[0]])) + rest
  }

  /** The body of the `FromString` loop: each segment, in order, is split on
      `:`; the first part is the key, the second part the value, and any
      further parts are ignored. Assignment through the indexer lets a later
      segment overwrite an earlier one with the same key. */
  function DecodeSegments<V>(segs: seq<string>, acc: map<string, V>, parse: string -> Option<V>)
    : (r: Result<map<string, V>, DecodeError>)
    requires forall i | 0 <= i < |segs| :: '#' !in segs[i]
    requires forall k | k in acc :: ValidKey(k)
    ensures r.Ok? ==> acc.Keys <= r.value.Keys
    ensures r.Ok? && |segs| > 0 ==> Split(segs[0], ':')[0] in r.value
    ensures r.Ok? ==> forall k | k in r.value :: ValidKey(k)
    decreases |segs|
  {
    if |segs| == 0 then Ok(acc)
    else
      var parts := Split(segs[0], ':');
      if |parts| < 2 then Err(MissingValue(segs[0]))
      else
        match parse(parts[1])
        case None => Err(NotANumber(parts[1]))
        case Some(v) =>
          SplitKeepsAbsentChars(segs[0], ':', '#');
          DecodeSegments(segs[1..], acc[parts[0] := v], parse)
  }

  /** `FromString`: strips every leading `#`, splits the rest on `#` and
      decodes each piece. A successful decode never yields an empty map, and
      every key it yields is one the format can carry. */
  function Decode<V>(text: string, parse: string -> Option<V>): (r: Result<map<string, V>, DecodeError>)
    ensures r.Ok? ==> |r.value| > 0
    ensures r.Ok? ==> forall k | k in r.value :: ValidKey(k)
  {
    DecodeSegments(Pieces(text), map[], parse)
  }

  /** The segments `FromString` loops over: the text without its leading
      `#`, split on `#`. */
  function Pieces(text: string): (segs: seq<string>)
    ensures |segs| >= 1
    ensures forall i | 0 <= i < |segs| :: '#' !in segs[i]
  {
    Split(TrimStart(text, '#'), '#')
  }

  /** The key a segment assigns: the text before its first `:`. */
  function KeyOf(seg: string): string {
    Split(seg, ':')[0]
  }

  /** Some segment of `segs` assigns key `k`. */
  predicate NamedBy(segs: seq<string>, k: string) {
    exists i | 0 <= i < |segs| :: KeyOf(segs[i]) == k
  }

  /** Why one segment makes the loop throw, if it does: it has no `:`, or
      the text between its first and second `:` does not parse. */
  function SegmentError<V>(seg: string, parse: string -> Option<V>): Option<DecodeError> {
    var parts := Split(seg, ':');
    if |parts| < 2 then Some(MissingValue(seg))
    else if parse(parts[1]).None? then Some(NotANumber(parts[1]))
    else None
  }

  /** The value a segment that does not throw assigns. */
  function ValueOf<V>(seg: string, parse: string -> Option<V>): V
    requires SegmentError(seg, parse).None?
  {
    parse(Split(seg, ':')[1]).value
  }

  /** The key of a `#`-free segment is one the format can carry. */
  lemma KeyOfValid(seg: string)
    requires '#' !in seg
    ensures ValidKey(KeyOf(seg))
  {
    SplitKeepsAbsentChars(seg, ':', '#');
  }

  /** One step of the loop over a segment that does not throw. */
  lemma DecodeSegmentsStep<V>(segs: seq<string>, acc: map<string, V>, parse: string -> Option<V>)
    requires |segs| > 0 && SegmentError(segs[0], parse).None?
    requires forall i | 0 <= i < |segs| :: '#' !in segs[i]
    requires forall k | k in acc :: ValidKey(k)
    ensures forall i | 0 <= i < |segs[1..]| :: '#' !in segs[1..][i]
    ensures forall k | k in acc[KeyOf(segs[0]) := ValueOf(segs[0], parse)] :: ValidKey(k)
    ensures DecodeSegments(segs, acc, parse)
         == DecodeSegments(segs[1..], acc[KeyOf(segs[0]) := ValueOf(segs[0], parse)], parse)
  {
    KeyOfValid(segs[0]);
  }

  /** The loop succeeds exactly when no segment throws. */
  lemma {:induction false} DecodeSegmentsSucceedsIff<V>(segs: seq<string>, acc: map<string, V>, parse: string -> Option<V>)
    requires forall i | 0 <= i < |segs| :: '#' !in segs[i]
    requires forall k | k in acc :: ValidKey(k)
    ensures DecodeSegments(segs, acc, parse).Ok? <==>
      forall i | 0 <= i < |segs| :: SegmentError(segs[i], parse).None?
    decreases |segs|
  {
    if |segs| > 0 {
      if SegmentError(segs[0], parse).None? {
        DecodeSegmentsStep(segs, acc, parse);
        DecodeSegmentsSucceedsIff(segs[1..], acc[KeyOf(segs[0]) := ValueOf(segs[0], parse)], parse);
        assert forall i | 1 <= i < |segs| :: segs[i] == segs[1..][i - 1];
      }
    }
  }

  /** The loop fails with the error of the first segment that throws. */
  lemma {:induction false} DecodeSegmentsFailsAt<V>(segs: seq<string>, acc: map<string, V>, parse: string -> Option<V>, i: nat)
    requires forall j | 0 <= j < |segs| :: '#' !in segs[j]
    requires forall k | k in acc :: ValidKey(k)
    requires i < |segs| && SegmentError(segs[i], parse).Some?
    requires forall j | 0 <= j < i :: SegmentError(segs[j], parse).None?
    ensures DecodeSegments(segs, acc, parse) == Err(SegmentError(segs[i], parse).value)
    decreases i
  {
    if i > 0 {
      DecodeSegmentsStep(segs, acc, parse);
      assert forall j | 0 <= j < i - 1 :: segs[1..][j] == segs[j + 1];
      DecodeSegmentsFailsAt(segs[1..], acc[KeyOf(segs[0]) := ValueOf(segs[0], parse)], parse, i - 1);
    }
  }

  /** A successful loop yields the keys of `acc` and of the segments, and
      nothing else. */
  lemma {:induction false} DecodeSegmentsKeys<V>(segs: seq<string>, acc: map<string, V>, parse: string -> Option<V>)
    requires forall i | 0 <= i < |segs| :: '#' !in segs[i]
    requires forall k | k in acc :: ValidKey(k)
    requires DecodeSegments(segs, acc, parse).Ok?
    ensures forall k :: k in DecodeSegments(segs, acc, parse).value <==> k in acc || NamedBy(segs, k)
    decreases |segs|
  {
    if |segs| > 0 {
      DecodeSegmentsSucceedsIff(segs, acc, parse);
      assert SegmentError(segs[0], parse).None?;
      var next := acc[KeyOf(segs[0]) := ValueOf(segs[0], parse)];
      DecodeSegmentsStep(segs, acc, parse);
      DecodeSegmentsKeys(segs[1..], next, parse);
      forall k
        ensures NamedBy(segs, k) <==> k == KeyOf(segs[0]) || NamedBy(segs[1..], k)
      {
        if NamedBy(segs, k) {
          var i :| 0 <= i < |segs| && KeyOf(segs[i]) == k;
          if i > 0 { assert segs[1..][i - 1] == segs[i]; }
        }
        if NamedBy(segs[1..], k) {
          var i :| 0 <= i < |segs[1..]| && KeyOf(segs[1..][i]) == k;
          assert segs[i + 1] == segs[1..][i];
        }
      }
    }
  }

  /** A key no segment names keeps the value it had in `acc`. */
  lemma {:induction false} DecodeSegmentsKeepsUnnamed<V>(segs: seq<string>, acc: map<string, V>, parse: string -> Option<V>, k: string)
    requires forall i | 0 <= i < |segs| :: '#' !in segs[i]
    requires forall k' | k' in acc :: ValidKey(k')
    requires DecodeSegments(segs, acc, parse).Ok?
    requires k in acc && forall i | 0 <= i < |segs| :: KeyOf(segs[i]) != k
    ensures k in DecodeSegments(segs, acc, parse).value
    ensures DecodeSegments(segs, acc, parse).value[k] == acc[k]
    decreases |segs|
  {
    if |segs| > 0 {
      DecodeSegmentsSucceedsIff(segs, acc, parse);
      assert SegmentError(segs[0], parse).None?;
      DecodeSegmentsStep(segs, acc, parse);
      assert forall i | 0 <= i < |segs[1..]| :: segs[1..][i] == segs[i + 1];
      DecodeSegmentsKeepsUnnamed(segs[1..], acc[KeyOf(segs[0]) := ValueOf(segs[0], parse)], parse, k);
    }
  }

  /** The last segment that names a key decides its value. */
  lemma {:induction false} DecodeSegmentsLastWins<V>(segs: seq<string>, acc: map<string, V>, parse: string -> Option<V>, i: nat)
    requires forall j | 0 <= j < |segs| :: '#' !in segs[j]
    requires forall k | k in acc :: ValidKey(k)
    requires DecodeSegments(segs, acc, parse).Ok?
    requires i < |segs| && forall j | i < j < |segs| :: KeyOf(segs[j]) != KeyOf(segs[i])
    ensures SegmentError(segs[i], parse).None?
    ensures KeyOf(segs[i]) in DecodeSegments(segs, acc, parse).value
    ensures DecodeSegments(segs, acc, parse).value[KeyOf(segs[i])] == ValueOf(segs[i], parse)
    decreases i
  {
    DecodeSegmentsSucceedsIff(segs, acc, parse);
    DecodeSegmentsStep(segs, acc, parse);
    var next := acc[KeyOf(segs[0]) := ValueOf(segs[0], parse)];
    if i == 0 {
      assert forall j | 0 <= j < |segs[1..]| :: segs[1..][j] == segs[j + 1];
      DecodeSegmentsKeepsUnnamed(segs[1..], next, parse, KeyOf(segs[0]));
    } else {
      assert forall j | i - 1 < j < |segs[1..]| :: segs[1..][j] == segs[j + 1];
      assert segs[1..][i - 1] == segs[i];
      DecodeSegmentsLastWins(segs[1..], next, parse, i - 1);
    }
  }

  /** A piece of a split string holds no character the whole string lacks. */
  lemma {:induction false} SplitKeepsAbsentChars(s: string, sep: char, c: char)
    requires c !in s
    ensures forall i | 0 <= i < |Split(s, sep)| :: c !in Split(s, sep)[i]
    decreases |s|
  {
    if sep in s {
      var i := IndexOf(s, sep);
      assert c !in s[..i];
      assert forall x | x in s[i + 1..] :: x in s;
      SplitKeepsAbsentChars(s[i + 1..], sep, c);
    }
  }

  /** Decoding the segments of an enumeration adds exactly those entries. */
  lemma {:induction false} DecodeSegmentsOfEntries<V>(m: map<string, V>, order: seq<string>, fmt: V -> string,
                                                      parse: string -> Option<V>, acc: map<string, V>)
    requires forall k | k in order :: k in m && ValidKey(k)
    requires forall k | k in m :: '#' !in fmt(m[k]) && ':' !in fmt(m[k]) && parse(fmt(m[k])) == Some(m[k])
    requires forall k | k in acc :: ValidKey(k)
    ensures forall i | 0 <= i < |order| :: '#' !in Segments(m, order, fmt)[i]
    ensures DecodeSegments(Segments(m, order, fmt), acc, parse) == Ok(acc + Entries(m, order))
    decreases |order|
  {
    var segs := Segments(m, order, fmt);
    forall i | 0 <= i < |order|
      ensures '#' !in segs[i]
    {
      SegmentFacts(order[i], fmt(m[order[i]]));
    }
    if |order| > 0 {
      var k := order[0];
      SegmentFacts(k, fmt(m[k]));
      assert Split(segs[0], ':') == [k, fmt(m[k])];
      assert segs[1..] == Segments(m, order[1..], fmt);
      DecodeSegmentsOfEntries(m, order[1..], fmt, parse, acc[k := m[k]]);
      EntriesStep(m, order, acc);
    } else {
      assert acc + Entries(m, order) == acc;
    }
  }

  /** The entries of `m` whose keys `order` lists. */
  function Entries<V>(m: map<string, V>, order: seq<string>): (e: map<string, V>)
    requires forall k | k in order :: k in m
    ensures forall k :: k in e <==> k in order
    ensures forall k | k in e :: e[k] == m[k]
  {
    map k | k in order :: m[k]
  }

  lemma EntriesStep<V>(m: map<string, V>, order: seq<string>, acc: map<string, V>)
    requires |order| > 0
    requires forall k | k in order :: k in m
    ensures acc[order[0] := m[order[0]]] + Entries(m, order[1..]) == acc + Entries(m, order)
  {
    var lhs := acc[order[0] := m[order[0]]] + Entries(m, order[1..]);
    var rhs := acc + Entries(m, order);
    assert forall k :: k in order <==> k == order[0] || k in order[1..];
    assert lhs.Keys == rhs.Keys;
    forall k | k in lhs
      ensures lhs[k] == rhs[k]
    {
    }
  }

  /** What the format relies on in one segment: it holds no `#`, it does not
      start with `#`, and splitting it on `:` gives the key first. */
  lemma SegmentFacts(k: string, text: string)
    requires ValidKey(k) && '#' !in text
    ensures '#' !in Segment(k, text)
    ensures |Segment(k, text)| > 0 && Segment(k, text)[0] != '#'
    ensures Split(Segment(k, text), ':') == [k] + Split(text, ':')
  {
    var seg := Segment(k, text);
    assert seg[0] == if |k| > 0 then k[0] else ':';
    SplitAfterPiece(k, text, ':');
  }

  /** Stripping the leading `#` of a non-empty encoding leaves the joined
      segments. */
  lemma TrimEncoding<V>(m: map<string, V>, order: seq<string>, fmt: V -> string)
    requires |order| > 0
    requires forall k | k in order :: k in m && ValidKey(k)
    requires forall k | k in m :: '#' !in fmt(m[k])
    ensures TrimStart(Encode(m, order, fmt), '#') == Join(Segments(m, order, fmt), '#')
  {
    var segs := Segments(m, order, fmt);
    var body := Join(segs, '#');
    SegmentFacts(order[0], fmt(m[order[0]]));
    assert body[0] == segs[0][0] by {
      if |segs| > 1 {
        assert body == segs[0] + (['#'] + Join(segs[1..], '#'));
      }
    }
    var text := Encode(m, order, fmt);
    assert text == ['#'] + body;
    assert text[1..] == body;
  }

  /** Stripping and splitting an encoding gives back its segments. */
  lemma SplitEncoding<V>(m: map<string, V>, order: seq<string>, fmt: V -> string)
    requires |order| > 0
    requires forall k | k in order :: k in m && ValidKey(k)
    requires forall k | k in m :: '#' !in fmt(m[k])
    ensures Split(TrimStart(Encode(m, order, fmt), '#'), '#') == Segments(m, order, fmt)
  {
    var segs := Segments(m, order, fmt);
    TrimEncoding(m, order, fmt);
    forall i | 0 <= i < |order|
      ensures '#' !in segs[i]
    {
      SegmentFacts(order[i], fmt(m[order[i]]));
    }
    SplitJoin(segs, '#');
  }

  /** Decoding the segments of a full enumeration, from nothing, gives the
      whole dictionary. */
  lemma DecodeAllEntries<V>(m: map<string, V>, order: seq<string>, fmt: V -> string, parse: string -> Option<V>)
    requires Enumerates(order, m)
    requires forall k | k in m :: ValidKey(k)
    requires forall k | k in m :: '#' !in fmt(m[k]) && ':' !in fmt(m[k]) && parse(fmt(m[k])) == Some(m[k])
    ensures forall i | 0 <= i < |order| :: '#' !in Segments(m, order, fmt)[i]
    ensures DecodeSegments(Segments(m, order, fmt), map[], parse) == Ok(m)
  {
    var empty: map<string, V> := map[];
    DecodeSegmentsOfEntries(m, order, fmt, parse, empty);
    EntriesOfEnumeration(m, order);
    assert empty + Entries(m, order) == Entries(m, order);
  }

  /** The entries an enumeration lists are the whole dictionary. */
  lemma EntriesOfEnumeration<V>(m: map<string, V>, order: seq<string>)
    requires Enumerates(order, m)
    ensures Entries(m, order) == m
  {
    assert Entries(m, order).Keys == m.Keys;
  }

  /** The round trip: a non-empty dictionary whose keys carry neither `#`
      nor `:`, written with a printer whose output carries neither and that
      the parser reads back, decodes to itself, whatever the enumeration
      order. */
  lemma RoundTrip<V>(m: map<string, V>, order: seq<string>, fmt: V -> string, parse: string -> Option<V>)
    requires Enumerates(order, m) && |m| > 0
    requires forall k | k in m :: ValidKey(k)
    requires forall k | k in m :: '#' !in fmt(m[k]) && ':' !in fmt(m[k]) && parse(fmt(m[k])) == Some(m[k])
    ensures Decode(Encode(m, order, fmt), parse) == Ok(m)
  {
    var k :| k in m;
    assert k in order;
    SplitEncoding(m, order, fmt);
    DecodeAllEntries(m, order, fmt, parse);
  }

  /** The parameterless dictionary encodes to the empty text. */
  lemma EmptyDictionaryEncodesToNothing<V>(fmt: V -> string)
    ensures Encode(NewSaveableDictionary<V>().dictionary, [], fmt) == ""
  {
  }

  /** The empty text does not decode: it is one empty segment without `:`.
      So the empty dictionary does not survive a round trip. */
  lemma EmptyTextFailsToDecode<V>(parse: string -> Option<V>)
    ensures Decode("", parse) == Err(MissingValue(""))
  {
    assert TrimStart("", '#') == "";
    assert Split("", '#') == [""];
    assert Split("", ':') == [""];
  }

  /** Decoding strips every leading `#`. */
  lemma LeadingHashesIgnored<V>(n: nat, text: string, parse: string -> Option<V>)
    ensures Decode(Repeat('#', n) + text, parse) == Decode(text, parse)
  {
    TrimStartIgnoresRepeats('#', n, text);
  }

  /** Decoding succeeds exactly when no segment throws; on success the
      keys are exactly the segments' keys. */
  lemma DecodeSucceedsIff<V>(text: string, parse: string -> Option<V>)
    ensures Decode(text, parse).Ok? <==>
      forall i | 0 <= i < |Pieces(text)| :: SegmentError(Pieces(text)[i], parse).None?
    ensures Decode(text, parse).Ok? ==> forall k :: k in Decode(text, parse).value <==> NamedBy(Pieces(text), k)
  {
    var segs := Pieces(text);
    var empty: map<string, V> := map[];
    assert Decode(text, parse) == DecodeSegments(segs, empty, parse);
    DecodeSegmentsSucceedsIff(segs, empty, parse);
    if Decode(text, parse).Ok? {
      DecodeSegmentsKeys(segs, empty, parse);
    }
  }

  /** A segment without `:`, anywhere in the text, makes decoding fail; it
      is the error reported when every segment before it decodes. */
  lemma SegmentWithoutColonFails<V>(text: string, parse: string -> Option<V>, i: nat)
    requires i < |Pieces(text)| && ':' !in Pieces(text)[i]
    ensures Decode(text, parse).Err?
    ensures (forall j | 0 <= j < i :: SegmentError(Pieces(text)[j], parse).None?) ==>
      Decode(text, parse) == Err(MissingValue(Pieces(text)[i]))
  {
    var segs := Pieces(text);
    var empty: map<string, V> := map[];
    assert SegmentError(segs[i], parse) == Some(MissingValue(segs[i]));
    DecodeSegmentsSucceedsIff(segs, empty, parse);
    if forall j | 0 <= j < i :: SegmentError(segs[j], parse).None? {
      DecodeSegmentsFailsAt(segs, empty, parse, i);
    }
  }

  /** A value text the parser rejects, anywhere in the text, makes decoding
      fail; that text is the error reported when every segment before it
      decodes. */
  lemma UnparsableValueFails<V>(text: string, parse: string -> Option<V>, i: nat)
    requires i < |Pieces(text)|
    requires |Split(Pieces(text)[i], ':')| >= 2 && parse(Split(Pieces(text)[i], ':')[1]).None?
    ensures Decode(text, parse).Err?
    ensures (forall j | 0 <= j < i :: SegmentError(Pieces(text)[j], parse).None?) ==>
      Decode(text, parse) == Err(NotANumber(Split(Pieces(text)[i], ':')[1]))
  {
    var segs := Pieces(text);
    var empty: map<string, V> := map[];
    assert SegmentError(segs[i], parse) == Some(NotANumber(Split(segs[i], ':')[1]));
    DecodeSegmentsSucceedsIff(segs, empty, parse);
    if forall j | 0 <= j < i :: SegmentError(segs[j], parse).None? {
      DecodeSegmentsFailsAt(segs, empty, parse, i);
    }
  }

  /** Decoding one segment `k:text...` whose value parses. */
  lemma DecodeOneSegment<V>(seg: string, k: string, text: string, parse: string -> Option<V>, acc: map<string, V>)
    requires '#' !in seg && ValidKey(k)
    requires forall k' | k' in acc :: ValidKey(k')
    requires |Split(seg, ':')| >= 2 && Split(seg, ':')[0] == k && Split(seg, ':')[1] == text
    requires parse(text).Some?
    ensures DecodeSegments([seg], acc, parse) == Ok(acc[k := parse(text).value])
  {
    assert [seg][1..] == [];
  }

  /** Text after a second `:` in a segment is ignored. */
  lemma ExtraColonPartsIgnored<V>(k: string, text: string, extra: string, parse: string -> Option<V>)
    requires ValidKey(k) && ValidKey(text) && '#' !in extra
    requires parse(text).Some?
    ensures Decode(Segment(k, Segment(text, extra)), parse) == Ok(map[k := parse(text).value])
  {
    var seg := Segment(k, Segment(text, extra));
    SegmentFacts(text, extra);
    SegmentFacts(k, Segment(text, extra));
    assert TrimStart(seg, '#') == seg;
    assert Split(seg, '#') == [seg];
    DecodeOneSegment(seg, k, text, parse, map[]);
  }

  /** When a key repeats, the last segment that names it decides its
      value. */
  lemma LaterSegmentOverwrites<V>(text: string, parse: string -> Option<V>, i: nat)
    requires Decode(text, parse).Ok?
    requires i < |Pieces(text)|
    requires forall j | i < j < |Pieces(text)| :: KeyOf(Pieces(text)[j]) != KeyOf(Pieces(text)[i])
    ensures SegmentError(Pieces(text)[i], parse).None?
    ensures KeyOf(Pieces(text)[i]) in Decode(text, parse).value
    ensures Decode(text, parse).value[KeyOf(Pieces(text)[i])] == ValueOf(Pieces(text)[i], parse)
  {
    var empty: map<string, V> := map[];
    DecodeSegmentsLastWins(Pieces(text), empty, parse, i);
  }
}
