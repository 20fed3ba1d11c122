/**
 * The record store of sentence_manager.py.  The data file is a list of
 * lines: the first holds the cursor index, the second the tab-separated
 * field names, and every later one the tab-separated values of one
 * sentence.  Reading and writing the file itself is outside the model:
 * loading takes the lines `readlines()` returned, and saving returns the
 * chunks it would write.
 */
module Sentences {
  import opened Options
  import opened Text

  /**
   * A Python `dict` from field names to values: its keys in insertion
   * order, and the mapping.
   */
  datatype Dict = Dict(keys: seq<string>, vals: map<string, string>) {
    /** The keys are distinct and are exactly the mapped names. */
    ghost predicate WellFormed()
    {
      && (forall i, j :: 0 <= i < j < |keys| ==> keys[i] != keys[j])
      && (forall k :: k in vals <==> k in keys)
    }

    /** `d.get(k, "")`. */
    function Get(k: string): string
    {
      if k in vals then vals[k] else ""
    }

    /**
     * `d[k] = v`: afterwards `k` reads as `v` and every other key as
     * before; a new key goes to the end of the order, an old one keeps
     * its place.
     */
    function Put(k: string, v: string): (d: Dict)
      ensures d.Get(k) == v
      ensures forall o :: o != k ==> d.Get(o) == Get(o)
      ensures k in keys ==> d.keys == keys
      ensures k !in keys ==> d.keys == keys + [k]
    {
      if k in keys then Dict(keys, vals[k := v]) else Dict(keys + [k], vals[k := v])
    }

    /** `[d.get(key, "") for key in d]`. */
    function Values(): seq<string>
    {
      seq(|keys|, i requires 0 <= i < |keys| => Get(keys[i]))
    }
  }

  /** True when no name occurs twice. */
  predicate Distinct(names: seq<string>)
  {
    forall i, j :: 0 <= i < j < |names| ==> names[i] != names[j]
  }

  /**
   * `dict(zip(names, values))`: the pairs up to the shorter list are
   * inserted in order, so a repeated name keeps its first position and its
   * last value.
   */
  function Zip(names: seq<string>, values: seq<string>): Dict
  {
    var n := if |names| <= |values| then |names| else |values|;
    if n == 0 then Dict([], map[])
    else Zip(names[..n - 1], values[..n - 1]).Put(names[n - 1], values[n - 1])
  }

  /** Assignment keeps a dict well formed. */
  lemma PutWellFormed(d: Dict, k: string, v: string)
    requires d.WellFormed()
    ensures d.Put(k, v).WellFormed()
  {
  }

  /** What `dict(zip(...))` builds is a well-formed dict. */
  lemma {:induction false} ZipWellFormed(names: seq<string>, values: seq<string>)
    ensures Zip(names, values).WellFormed()
  {
    var n := if |names| <= |values| then |names| else |values|;
    if n > 0 {
      ZipWellFormed(names[..n - 1], values[..n - 1]);
      PutWellFormed(Zip(names[..n - 1], values[..n - 1]), names[n - 1], values[n - 1]);
    }
  }

  /** A name that is not among the zipped ones reads as `""` and is not a key. */
  lemma {:induction false} ZipAbsent(names: seq<string>, values: seq<string>, f: string)
    requires forall j :: 0 <= j < |names| && j < |values| ==> names[j] != f
    ensures Zip(names, values).Get(f) == ""
    ensures f !in Zip(names, values).keys
  {
    var n := if |names| <= |values| then |names| else |values|;
    if n > 0 {
      ZipAbsent(names[..n - 1], values[..n - 1], f);
    }
  }

  /** A name reads as the value paired with its last occurrence. */
  lemma {:induction false} ZipLast(names: seq<string>, values: seq<string>, i: int)
    requires 0 <= i < |names| && i < |values|
    requires forall j :: i < j < |names| && j < |values| ==> names[j] != names[i]
    ensures Zip(names, values).Get(names[i]) == values[i]
  {
    var n := if |names| <= |values| then |names| else |values|;
    if i < n - 1 {
      ZipLast(names[..n - 1], values[..n - 1], i);
    }
  }

  /**
   * With distinct names and enough values, the keys are the names in order
   * and `to_list()` gives the first `|names|` values back.
   */
  lemma ZipDistinct(names: seq<string>, values: seq<string>)
    requires Distinct(names) && |names| <= |values|
    ensures Zip(names, values).keys == names
    ensures Zip(names, values).Values() == values[..|names|]
  {
    ZipDistinctKeys(names, values);
    var d := Zip(names, values);
    forall j | 0 <= j < |names|
      ensures d.Values()[j] == values[j]
    {
      ZipLast(names, values, j);
    }
  }

  lemma {:induction false} ZipDistinctKeys(names: seq<string>, values: seq<string>)
    requires Distinct(names) && |names| <= |values|
    ensures Zip(names, values).keys == names
  {
    var n := |names|;
    if n > 0 {
      var init := names[..n - 1];
      ZipDistinctKeys(init, values[..n - 1]);
      assert names[n - 1] !in init;
      assert init + [names[n - 1]] == names;
    }
  }

  /** `Sentence`: one row of the data file, as a field-to-value dict. */
  class Sentence {
    var fields: Dict

    /** `Sentence(field_names, values)`. */
    constructor (fieldNames: seq<string>, values: seq<string>)
      ensures fields == Zip(fieldNames, values)
    {
      fields := Zip(fieldNames, values);
    }

    /**
     * `get`: a field the sentence does not hold reads as `""`, and a field
     * it holds reads as the entry `to_list` gives at that field's place.
     */
    function Get(field: string): (value: string)
      reads this
      ensures fields.WellFormed() && field !in fields.keys ==> value == ""
      ensures forall i :: 0 <= i < |fields.keys| && fields.keys[i] == field ==> value == ToList()[i]
    {
      fields.Get(field)
    }

    /** `set`: updates this sentence in place. */
    method Set(field: string, value: string)
      modifies this
      ensures fields == old(fields).Put(field, value)
    {
      fields := fields.Put(field, value);
    }

    /** `to_list`: one value per field, in the order the fields were added. */
    function ToList(): (values: seq<string>)
      reads this
      ensures |values| == |fields.keys|
      ensures forall i :: 0 <= i < |values| ==> values[i] == fields.Get(fields.keys[i])
    {
      fields.Values()
    }
  }

  /**
   * The padding and truncation of a row: exactly `n` values, the row's own
   * where it has them and `""` after its end.
   */
  function Fit(values: seq<string>, n: nat): (r: seq<string>)
    ensures |r| == n
    ensures forall i :: 0 <= i < n ==> r[i] == if i < |values| then values[i] else ""
  {
    if |values| < n then values + seq(n - |values|, _ => "") else values[..n]
  }

  /** The padding step of the load loop, as the source writes it. */
  method PadRow(values: seq<string>, n: nat) returns (r: seq<string>)
    ensures r == Fit(values, n)
  {
    r := values;
    if |r| < n {
      r := r + seq(n - |r|, _ => "");
    } else if |r| > n {
      r := r[..n];
    }
  }

  /** One pass of the load loop: split, pad or cut, and build the sentence. */
  method NewRow(header: seq<string>, line: string) returns (s: Sentence)
    ensures fresh(s) && s.fields == RowRecord(header, line)
  {
    var values := PadRow(Split(line, '\t'), |header|);
    s := new Sentence(header, values);
  }

  /** The index line: `int(line)` when `line.isdigit()`, otherwise 0. */
  function ParseIndex(line: string): (i: int)
    ensures i >= 0
    ensures !IsDigits(line) ==> i == 0
  {
    if IsDigits(line) then DigitsValue(line) else 0
  }

  /** `[line.rstrip("\n\r") for line in raw_lines]`. */
  function ReadLines(raw: seq<string>): seq<string>
  {
    seq(|raw|, i requires 0 <= i < |raw| => StripLineEnd(raw[i]))
  }

  /** The sentence one data line becomes under the given header. */
  function RowRecord(fields: seq<string>, line: string): Dict
  {
    Zip(fields, Fit(Split(line, '\t'), |fields|))
  }

  /** What a load leaves behind: the index, the header and the rows. */
  datatype Loaded = Loaded(index: int, fields: seq<string>, records: seq<Dict>)

  /**
   * `load_from_txt` without the file: fewer than two lines clear everything;
   * otherwise the header is line 2 split on tabs, every later line is one
   * row, and the index comes from line 1.
   */
  function Parse(raw: seq<string>): (l: Loaded)
    ensures l.index >= 0
    ensures |raw| < 2 ==> l == Loaded(0, [], [])
    ensures |raw| >= 2 ==> |l.fields| >= 1 && |l.records| == |raw| - 2
  {
    var lines := ReadLines(raw);
    if |lines| < 2 then Loaded(0, [], [])
    else
      var fields := Split(lines[1], '\t');
      Loaded(ParseIndex(lines[0]), fields,
             seq(|lines| - 2, i requires 0 <= i < |lines| - 2 => RowRecord(fields, lines[i + 2])))
  }

  /** Record `i` of a parse is data line `i + 2` read under the header. */
  lemma ParsedRecords(raw: seq<string>)
    requires |raw| >= 2
    ensures |Parse(raw).records| == |raw| - 2
    ensures forall i :: 0 <= i < |raw| - 2 ==>
              Parse(raw).records[i] == RowRecord(Parse(raw).fields, ReadLines(raw)[i + 2])
  {
  }

  /** Under a header without repeats, a row's keys are the header and its values the fitted cells. */
  lemma RowRecordDistinct(fields: seq<string>, line: string)
    requires Distinct(fields)
    ensures RowRecord(fields, line).keys == fields
    ensures RowRecord(fields, line).Values() == Fit(Split(line, '\t'), |fields|)
  {
    var cells := Fit(Split(line, '\t'), |fields|);
    ZipDistinct(fields, cells);
    assert cells[..|fields|] == cells;
  }

  /**
   * Every loaded row under a header without repeats has the header as its
   * keys and, as its values, the line's cells padded or cut to the header.
   */
  lemma ParsedRow(raw: seq<string>, i: int)
    requires |raw| >= 2 && 0 <= i < |raw| - 2
    requires Distinct(Parse(raw).fields)
    ensures Parse(raw).records[i].keys == Parse(raw).fields
    ensures Parse(raw).records[i].Values()
         == Fit(Split(StripLineEnd(raw[i + 2]), '\t'), |Parse(raw).fields|)
  {
    ParsedRecords(raw);
    RowRecordDistinct(Parse(raw).fields, StripLineEnd(raw[i + 2]));
  }

  /** `value.replace("\n", "3==D")`. */
  function Escape(v: string): (r: string)
    ensures '\n' !in r
  {
    ReplaceChar(v, '\n', "3==D")
  }

  lemma {:induction false} EscapeWithoutNewline(v: string)
    requires '\n' !in v
    ensures Escape(v) == v
  {
    if |v| > 0 {
      EscapeWithoutNewline(v[1..]);
      assert [v[0]] + v[1..] == v;
    }
  }

  /** One saved row: the sentence's values in header order, escaped. */
  function Row(fields: seq<string>, d: Dict): seq<string>
  {
    seq(|fields|, j requires 0 <= j < |fields| => Escape(d.Get(fields[j])))
  }

  /** The lines `save_to_txt` writes, without their newlines. */
  function Serialize(index: int, fields: seq<string>, records: seq<Dict>): seq<string>
  {
    [IntToString(index), Join(fields, '\t')]
    + seq(|records|, i requires 0 <= i < |records| => Join(Row(fields, records[i]), '\t'))
  }

  /** Each line followed by the newline the writer adds after it. */
  function Written(lines: seq<string>): seq<string>
  {
    seq(|lines|, i requires 0 <= i < |lines| => lines[i] + "\n")
  }

  /** Serializing one more record adds its line at the end. */
  lemma SerializeAppend(index: int, fields: seq<string>, records: seq<Dict>, d: Dict)
    ensures Written(Serialize(index, fields, records + [d]))
         == Written(Serialize(index, fields, records)) + [Join(Row(fields, d), '\t') + "\n"]
  {
    var a := Written(Serialize(index, fields, records + [d]));
    var b := Written(Serialize(index, fields, records)) + [Join(Row(fields, d), '\t') + "\n"];
    assert |a| == |b|;
    forall t | 0 <= t < |a|
      ensures a[t] == b[t]
    {
      if 2 <= t < |a| - 1 {
        assert (records + [d])[t - 2] == records[t - 2];
      }
    }
  }

  /** A header cell or an escaped value that survives a save and a load. */
  predicate Plain(s: string)
  {
    '\t' !in s && '\n' !in s && '\r' !in s
  }

  /**
   * Saving and loading again gives back the index, the header and one row
   * per sentence, whose fields read as the escaped saved values and whose
   * other names read as `""`, provided the header is not empty and no name
   * or value holds a tab or a carriage return.
   */
  lemma SaveLoadRoundTrip(index: nat, fields: seq<string>, records: seq<Dict>)
    requires |fields| >= 1
    requires forall j :: 0 <= j < |fields| ==> Plain(fields[j])
    requires forall i, f :: 0 <= i < |records| && f in fields ==> '\t' !in records[i].Get(f) && '\r' !in records[i].Get(f)
    ensures Parse(Written(Serialize(index, fields, records))).index == index
    ensures Parse(Written(Serialize(index, fields, records))).fields == fields
    ensures |Parse(Written(Serialize(index, fields, records))).records| == |records|
    ensures forall i, f :: 0 <= i < |records| ==>
              Parse(Written(Serialize(index, fields, records))).records[i].Get(f)
              == if f in fields then Escape(records[i].Get(f)) else ""
  {
    var lines := Serialize(index, fields, records);
    var raw := Written(lines);
    var l := Parse(raw);
    assert ReadLines(raw) == lines by {
      forall t | 0 <= t < |lines|
        ensures StripLineEnd(raw[t]) == lines[t]
      {
        LineIsPlain(index, fields, records, t);
        StripLineEndOfWritten(lines[t]);
      }
    }
    NatToStringRoundTrip(index);
    SplitJoin(fields, '\t');
    forall i, f | 0 <= i < |records|
      ensures l.records[i].Get(f) == if f in fields then Escape(records[i].Get(f)) else ""
    {
      RowRoundTrip(fields, records[i], f);
    }
  }

  /** One saved row, split and zipped again under the same header. */
  lemma RowRoundTrip(fields: seq<string>, d: Dict, f: string)
    requires |fields| >= 1
    requires forall g :: g in fields ==> '\t' !in d.Get(g)
    ensures RowRecord(fields, Join(Row(fields, d), '\t')).Get(f)
         == if f in fields then Escape(d.Get(f)) else ""
  {
    var row := Row(fields, d);
    forall j | 0 <= j < |row|
      ensures '\t' !in row[j]
    {
      assert fields[j] in fields;
    }
    SplitJoin(row, '\t');
    assert Fit(row, |fields|) == row;
    if f in fields {
      var j := LastIndex(fields, f);
      ZipLast(fields, row, j);
    } else {
      ZipAbsent(fields, row, f);
    }
  }

  /** The position of the last occurrence of `f`. */
  lemma LastIndex(names: seq<string>, f: string) returns (j: int)
    requires f in names
    ensures 0 <= j < |names| && names[j] == f
    ensures forall k :: j < k < |names| ==> names[k] != f
  {
    j := |names| - 1;
    while names[j] != f
      decreases j
      invariant 0 <= j < |names|
      invariant f in names[..j + 1]
      invariant forall k :: j < k < |names| ==> names[k] != f
    {
      assert names[..j + 1] == names[..j] + [names[j]];
      j := j - 1;
    }
  }

  /** No serialized line holds a newline or a carriage return. */
  lemma LineIsPlain(index: nat, fields: seq<string>, records: seq<Dict>, t: int)
    requires forall j :: 0 <= j < |fields| ==> Plain(fields[j])
    requires forall i, f :: 0 <= i < |records| && f in fields ==> '\r' !in records[i].Get(f)
    requires 0 <= t < |Serialize(index, fields, records)|
    ensures '\n' !in Serialize(index, fields, records)[t]
    ensures '\r' !in Serialize(index, fields, records)[t]
  {
    var lines := Serialize(index, fields, records);
    if t == 0 {
      NatToStringRoundTrip(index);
      var s := NatToString(index);
      assert forall c :: c in s ==> IsDigit(c);
    } else if t == 1 {
      JoinAvoids(fields, '\t', '\n');
      JoinAvoids(fields, '\t', '\r');
    } else {
      var row := Row(fields, records[t - 2]);
      forall j | 0 <= j < |row|
        ensures '\r' !in row[j]
      {
        assert fields[j] in fields;
      }
      JoinAvoids(row, '\t', '\n');
      JoinAvoids(row, '\t', '\r');
    }
  }

  /** `current()`'s correction of an out-of-range index, for a non-empty list. */
  function Clamp(i: int, n: int): (r: int)
    requires n > 0
    ensures 0 <= r < n
    ensures 0 <= i < n ==> r == i
    ensures i >= n ==> r == n - 1
    ensures i < 0 ==> r == 0
  {
    if i >= n then n - 1 else if i < 0 then 0 else i
  }

  /** The index after `next()`: one further, unless already at the last row. */
  function NextIndex(i: int, n: int): (r: int)
    ensures 0 <= i < n ==> 0 <= r < n
    ensures i < n - 1 ==> r == i + 1
    ensures i >= n - 1 ==> r == i
  {
    if i < n - 1 then i + 1 else i
  }

  /** The index after `previous()`: one back, unless already at the first row. */
  function PreviousIndex(i: int): (r: int)
    ensures i >= 0 ==> 0 <= r <= i
    ensures i > 0 ==> r == i - 1
    ensures i <= 0 ==> r == i
  {
    if i > 0 then i - 1 else i
  }

  /** Inside the list, `previous()` undoes `next()` and `next()` undoes `previous()`. */
  lemma NavigationInverse(i: int, n: int)
    ensures 0 <= i < n - 1 ==> PreviousIndex(NextIndex(i, n)) == i
    ensures 0 < i < n ==> NextIndex(PreviousIndex(i), n) == i
  {
  }

  /** No sentence object occurs twice. */
  predicate DistinctObjects(ss: seq<Sentence>)
  {
    forall i, j :: 0 <= i < j < |ss| ==> ss[i] != ss[j]
  }

  /** A fresh sentence can join a list without repeats. */
  lemma DistinctAppend(ss: seq<Sentence>, s: Sentence)
    requires DistinctObjects(ss) && s !in ss
    ensures DistinctObjects(ss + [s])
  {
  }

  /** The loop of `load_from_txt` over the data lines: one new sentence each. */
  method BuildRows(header: seq<string>, lines: seq<string>, ghost records: seq<Dict>) returns (built: seq<Sentence>)
    requires |lines| >= 2 && |records| == |lines| - 2
    requires forall i :: 0 <= i < |records| ==> records[i] == RowRecord(header, lines[i + 2])
    ensures |built| == |lines| - 2
    ensures forall i :: 0 <= i < |built| ==> fresh(built[i])
    ensures forall i :: 0 <= i < |built| ==> built[i].fields == records[i]
    ensures DistinctObjects(built)
  {
    built := [];
    var k := 2;
    while k < |lines|
      invariant 2 <= k <= |lines| && |built| == k - 2
      invariant forall s :: s in built ==> fresh(s)
      invariant forall i :: 0 <= i < |built| ==> built[i].fields == records[i]
      invariant DistinctObjects(built)
    {
      ghost var prev := built;
      built := AppendRow(header, lines, k, built, records);
      assert built == prev + [built[k - 2]];
      k := k + 1;
    }
    assert forall i :: 0 <= i < |built| ==> built[i] in built;
  }

  /** One pass of that loop: the sentence for line `k` joins the list. */
  method AppendRow(header: seq<string>, lines: seq<string>, k: int, built: seq<Sentence>, ghost records: seq<Dict>)
    returns (built': seq<Sentence>)
    requires 2 <= k < |lines| && |built| == k - 2 && |records| == |lines| - 2
    requires records[k - 2] == RowRecord(header, lines[k])
    requires forall i :: 0 <= i < |built| ==> built[i].fields == records[i]
    requires DistinctObjects(built)
    ensures |built'| == k - 1 && built'[..k - 2] == built && fresh(built'[k - 2])
    ensures forall i :: 0 <= i < |built'| ==> built'[i].fields == records[i]
    ensures DistinctObjects(built')
  {
    var s := NewRow(header, lines[k]);
    assert s !in built;
    DistinctAppend(built, s);
    built' := built + [s];
    assert built'[..k - 2] == built;
  }

  /** What `save_to_txt` produces: no target path, or the chunks for one. */
  datatype SaveResult = NoPath | Chunks(path: string, chunks: seq<string>)

  /** `SentenceManager`. */
  class SentenceManager {
    var sentences: seq<Sentence>
    var fields: seq<string>
    var currentIndex: int
    /** `_last_loaded_path`, absent until the first load. */
    var lastLoadedPath: Option<string>

    /** The contents of the sentences, in order. */
    ghost function Records(): seq<Dict>
      reads this, sentences
    {
      seq(|sentences|, i reads this, sentences requires 0 <= i < |sentences| => sentences[i].fields)
    }

    constructor ()
      ensures sentences == [] && fields == [] && currentIndex == 0 && lastLoadedPath == None
    {
      sentences := [];
      fields := [];
      currentIndex := 0;
      lastLoadedPath := None;
    }

    /**
     * `load_from_txt`, given the lines the file holds: the state becomes
     * what `Parse` describes, with one new sentence object per data line.
     */
    method LoadFromLines(path: string, raw: seq<string>)
      modifies this
      ensures lastLoadedPath == Some(path)
      ensures currentIndex == Parse(raw).index && fields == Parse(raw).fields
      ensures Records() == Parse(raw).records
      ensures forall i :: 0 <= i < |sentences| ==> fresh(sentences[i])
      ensures DistinctObjects(sentences)
    {
      lastLoadedPath := Some(path);
      var lines := ReadLines(raw);
      if |lines| < 2 {
        fields := [];
        sentences := [];
        currentIndex := 0;
        return;
      }
      var header := Split(lines[1], '\t');
      ghost var loaded := Parse(raw);
      assert loaded.fields == header && loaded.index == ParseIndex(lines[0]);
      ParsedRecords(raw);
      var built := BuildRows(header, lines, loaded.records);
      fields := header;
      sentences := built;
      currentIndex := ParseIndex(lines[0]);
      assert Records() == loaded.records by {
        forall t | 0 <= t < |built|
          ensures Records()[t] == built[t].fields
        {
        }
      }
    }

    /**
     * `save_to_txt` without the file: with no path given and none loaded
     * there is nowhere to write; otherwise the chunks are the index line,
     * the header line and one line per sentence, each with its newline.
     */
    method SaveLines(path: Option<string>) returns (r: SaveResult)
      ensures path.None? && lastLoadedPath.None? ==> r == NoPath
      ensures path.Some? ==> r == Chunks(path.value, Written(Serialize(currentIndex, fields, Records())))
      ensures path.None? && lastLoadedPath.Some? ==>
                r == Chunks(lastLoadedPath.value, Written(Serialize(currentIndex, fields, Records())))
    {
      var target: string;
      if path.None? {
        if lastLoadedPath.None? {
          return NoPath;
        }
        target := lastLoadedPath.value;
      } else {
        target := path.value;
      }
      var chunks := [IntToString(currentIndex) + "\n", Join(fields, '\t') + "\n"];
      var i := 0;
      while i < |sentences|
        invariant 0 <= i <= |sentences|
        invariant chunks == Written(Serialize(currentIndex, fields, Records()[..i]))
      {
        var row: seq<string> := [];
        var j := 0;
        while j < |fields|
          invariant 0 <= j <= |fields|
          invariant row == Row(fields, sentences[i].fields)[..j]
        {
          row := row + [Escape(sentences[i].Get(fields[j]))];
          j := j + 1;
        }
        assert row == Row(fields, sentences[i].fields);
        assert Records()[..i + 1] == Records()[..i] + [sentences[i].fields];
        SerializeAppend(currentIndex, fields, Records()[..i], sentences[i].fields);
        chunks := chunks + [Join(row, '\t') + "\n"];
        i := i + 1;
      }
      assert Records()[..i] == Records();
      r := Chunks(target, chunks);
    }

    /**
     * `current()`: none when there are no sentences; otherwise the index is
     * clamped into the list, in place, and that sentence is returned.
     */
    method Current() returns (s: Option<Sentence>)
      modifies this`currentIndex
      ensures s.None? <==> |sentences| == 0
      ensures |sentences| == 0 ==> currentIndex == old(currentIndex)
      ensures |sentences| > 0 ==>
                currentIndex == Clamp(old(currentIndex), |sentences|) && s == Some(sentences[currentIndex])
    {
      if |sentences| == 0 {
        return None;
      }
      if currentIndex >= |sentences| {
        currentIndex := |sentences| - 1;
      }
      if currentIndex < 0 {
        currentIndex := 0;
      }
      return Some(sentences[currentIndex]);
    }

    /** `next()`. */
    method Next()
      modifies this`currentIndex
      ensures currentIndex == NextIndex(old(currentIndex), |sentences|)
    {
      if currentIndex < |sentences| - 1 {
        currentIndex := currentIndex + 1;
      }
    }

    /** `previous()`. */
    method Previous()
      modifies this`currentIndex
      ensures currentIndex == PreviousIndex(old(currentIndex))
    {
      if currentIndex > 0 {
        currentIndex := currentIndex - 1;
      }
    }
  }

}
