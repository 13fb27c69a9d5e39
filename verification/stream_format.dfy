/** The format string of a RAW file header, such as "EVT3;height=720;width=1280". */
module StreamFormats {
  datatype StreamFormat = StreamFormat(name: string, options: map<string, string>)

  /** The pieces of a string between delimiters; there is always at least one. */
  function Split(s: string, d: char): (r: seq<string>)
    ensures |r| > 0
  {
    if s == "" then [""]
    else
      var rest := Split(s[1..], d);
      if s[0] == d then [""] + rest else [[s[0]] + rest[0]] + rest[1..]
  }

  function KeyOf(option: string): string { Split(option, '=')[0] }

  /** What follows the first '=' up to a second one. */
  function ValueOf(option: string): string {
    var pieces := Split(option, '=');
    if |pieces| > 1 then pieces[1] else ""
  }

  /** Later options replace earlier ones of the same name. */
  function AddOptions(options: map<string, string>, pieces: seq<string>): map<string, string>
    decreases pieces
  {
    if pieces == [] then options
    else AddOptions(options[KeyOf(pieces[0]) := ValueOf(pieces[0])], pieces[1..])
  }

  function Parsed(s: string): StreamFormat {
    var pieces := Split(s, ';');
    StreamFormat(pieces[0], AddOptions(map[], pieces[1..]))
  }

  // ----- The parser -----

  /** A string stream, with the part of `std::getline` that the parser relies on. */
  class StringStream {
    const data: string
    var pos: nat
    var eof: bool

    constructor (data: string)
      ensures this.data == data && pos == 0 && !eof
    {
      this.data, pos, eof := data, 0, false;
    }

    ghost predicate Valid()
      reads this
    {
      pos <= |data|
    }

    /** The pieces still to come. */
    ghost function Left(d: char): seq<string>
      requires Valid()
      reads this
    {
      if eof then [] else Split(data[pos..], d)
    }

    /**
     Reads up to the next delimiter and drops it, or up to the end, which sets `eof`. At the end of the stream it reads
     nothing and leaves its empty argument as it was.
     */
    method GetLine(d: char) returns (line: string)
      requires Valid()
      modifies this
      ensures Valid()
      ensures if old(eof) then line == "" && eof else [line] + Left(d) == old(Left(d))
      ensures !old(eof) && !eof ==> pos > old(pos)
    {
      line := "";
      if eof {
        return;
      }
      ghost var goal := Split(data[pos..], d);
      ghost var start := pos;
      assert "" + goal[0] == goal[0];
      while pos < |data| && data[pos] != d
        invariant start <= pos <= |data| && !eof
        invariant [line + Split(data[pos..], d)[0]] + Split(data[pos..], d)[1..] == goal
      {
        assert data[pos..][1..] == data[pos + 1..];
        ghost var rest := Split(data[pos + 1..], d);
        assert line + ([data[pos]] + rest[0]) == (line + [data[pos]]) + rest[0];
        line := line + [data[pos]];
        pos := pos + 1;
      }
      if pos == |data| {
        eof := true;
        assert line + "" == line;
      } else {
        assert data[pos..][1..] == data[pos + 1..];
        assert line + "" == line;
        pos := pos + 1;
      }
    }
  }

  method Parse(format: string) returns (r: StreamFormat)
    ensures r == Parsed(format)
  {
    hide Split;
    var sf := new StringStream(format);
    assert format[0..] == format;
    var name := sf.GetLine(';');
    var options: map<string, string> := map[];
    ghost var goal := AddOptions(map[], Split(format, ';')[1..]);
    while !sf.eof
      invariant sf.Valid() && AddOptions(options, sf.Left(';')) == goal
      decreases !sf.eof, |sf.data| - sf.pos
    {
      ghost var left := sf.Left(';');
      var option := sf.GetLine(';');
      var so := new StringStream(option);
      assert option[0..] == option;
      ghost var pieces := so.Left('=');
      var key := so.GetLine('=');
      var value := so.GetLine('=');
      assert key == KeyOf(option) && value == ValueOf(option);
      options := options[key := value];
      assert left[1..] == sf.Left(';');
    }
    r := StreamFormat(name, options);
  }

  // ----- Printing -----

  function Field(key: string, value: string): string { key + "=" + value }

  /** The options in a given order, each after a ';'. */
  function Printed(options: map<string, string>, order: seq<string>): string
    requires forall k :: k in order ==> k in options
  {
    if order == [] then "" else ";" + Field(order[0], options[order[0]]) + Printed(options, order[1..])
  }

  /** The order of `std::map<std::string, ...>`: lexicographic. */
  predicate Less(a: string, b: string) {
    b != "" && (a == "" || a[0] < b[0] || (a[0] == b[0] && Less(a[1..], b[1..])))
  }

  lemma {:induction false} LessTotal(a: string, b: string)
    ensures (a == b && !Less(a, b) && !Less(b, a)) || (a != b && Less(a, b) != Less(b, a))
  {
    if a != "" && b != "" && a[0] == b[0] {
      LessTotal(a[1..], b[1..]);
      assert a == [a[0]] + a[1..] && b == [b[0]] + b[1..];
    }
  }

  lemma {:induction false} LessTransitive(a: string, b: string, c: string)
    requires Less(a, b) && Less(b, c)
    ensures Less(a, c)
  {
    if a != "" && a[0] == b[0] == c[0] {
      LessTransitive(a[1..], b[1..], c[1..]);
    }
  }

  predicate IsLeast(k: string, keys: set<string>) { k in keys && forall k' :: k' in keys ==> k == k' || Less(k, k') }

  lemma {:induction false} HasLeast(keys: set<string>) returns (k: string)
    requires keys != {}
    ensures IsLeast(k, keys)
    decreases |keys|
  {
    hide Less;
    k :| k in keys;
    if keys != {k} {
      var rest := keys - {k};
      assert keys == rest + {k};
      var l := HasLeast(rest);
      LessTotal(k, l);
      if Less(k, l) {
        forall k' | k' in keys ensures k == k' || Less(k, k') {
          if k' != k && k' != l { LessTransitive(k, l, k'); }
        }
      } else {
        k := l;
      }
    }
  }

  /** The option names in ascending order. */
  ghost predicate Lists(order: seq<string>, options: map<string, string>) {
    && (forall k :: k in order <==> k in options)
    && (forall i, j :: 0 <= i < j < |order| ==> Less(order[i], order[j]))
  }

  /** Ascending sequences of the same names are the same, so a format has one printed form. */
  lemma {:induction false} ListingIsUnique(a: seq<string>, b: seq<string>)
    requires forall k :: k in a <==> k in b
    requires forall i, j :: 0 <= i < j < |a| ==> Less(a[i], a[j])
    requires forall i, j :: 0 <= i < j < |b| ==> Less(b[i], b[j])
    ensures a == b
    decreases |a|
  {
    hide Less;
    assert a != [] ==> a[0] in a;
    assert b != [] ==> b[0] in b;
    if a != [] {
      assert a[0] in b;
      var i: nat :| i < |b| && b[i] == a[0];
      var j: nat :| j < |a| && a[j] == b[0];
      LessTotal(a[0], b[0]);
      forall k ensures k in a[1..] <==> k in b[1..] {
        SameTail(a, b, k);
        SameTail(b, a, k);
      }
      ListingIsUnique(a[1..], b[1..]);
      assert a == [a[0]] + a[1..] && b == [b[0]] + b[1..];
    }
  }

  lemma SameTail(a: seq<string>, b: seq<string>, k: string)
    requires a != [] && b != [] && a[0] == b[0] && (k in a ==> k in b)
    requires forall j :: 0 < j < |a| ==> Less(a[0], a[j])
    ensures k in a[1..] ==> k in b[1..]
  {
    hide Less;
    if k in a[1..] {
      LessTotal(a[0], a[0]);
      assert k != a[0];
      var i :| 0 <= i < |b| && b[i] == k;
      assert b[1..][i - 1] == k;
    }
  }

  method ToString(f: StreamFormat) returns (format: string)
    ensures exists order :: Lists(order, f.options) && format == f.name + Printed(f.options, order)
  {
    hide Less;
    format := f.name;
    ghost var order: seq<string> := [];
    var todo := f.options.Keys;
    assert Printed(f.options, []) == "";
    while todo != {}
      invariant todo <= f.options.Keys
      invariant forall k :: k in order <==> k in f.options && k !in todo
      invariant forall i, j :: 0 <= i < j < |order| ==> Less(order[i], order[j])
      invariant forall k, k' :: k in order && k' in todo ==> Less(k, k')
      invariant format == f.name + Printed(f.options, order)
      decreases todo
    {
      ghost var least := HasLeast(todo);
      var k :| k in todo && IsLeast(k, todo);
      assert IsLeast(k, todo);
      PrintedSnoc(f.options, order, k);
      format := format + (";" + k + "=" + f.options[k]);
      assert format == f.name + Printed(f.options, order + [k]);
      forall a, b | a in order + [k] && b in todo - {k} ensures Less(a, b) {
        assert a in order || a == k;
      }
      order := order + [k];
      todo := todo - {k};
    }
    assert Lists(order, f.options);
  }

  lemma {:induction false} PrintedSnoc(options: map<string, string>, order: seq<string>, key: string)
    requires (forall k :: k in order ==> k in options) && key in options
    ensures forall k :: k in order + [key] ==> k in options
    ensures Printed(options, order + [key]) == Printed(options, order) + (";" + key + "=" + options[key])
    decreases order
  {
    if order == [] {
      assert (order + [key])[1..] == [];
      assert Printed(options, [key][1..]) == "";
    } else {
      assert (order + [key])[1..] == order[1..] + [key];
      PrintedSnoc(options, order[1..], key);
    }
  }

  // ----- Printing and reading back -----

  /** No separator inside a name or a value. */
  predicate Clean(f: StreamFormat) {
    && ';' !in f.name
    && forall k :: k in f.options ==> ';' !in k && '=' !in k && ';' !in f.options[k] && '=' !in f.options[k]
  }

  lemma {:induction false} SplitPieces(s: string, d: char)
    ensures forall p :: p in Split(s, d) ==> d !in p && forall c :: c in p ==> c in s
  {
    if s != "" {
      SplitPieces(s[1..], d);
    }
  }

  lemma {:induction false} SplitJoined(a: string, d: char, b: string)
    requires d !in a
    ensures Split(a + [d] + b, d) == [a] + Split(b, d)
  {
    if a == "" {
      assert ("" + [d] + b)[1..] == b;
    } else {
      assert (a + [d] + b)[1..] == a[1..] + [d] + b;
      SplitJoined(a[1..], d, b);
      assert [a[0]] + a[1..] == a;
    }
  }

  lemma {:induction false} SplitWhole(a: string, d: char)
    requires d !in a
    ensures Split(a, d) == [a]
  {
    if a != "" {
      SplitWhole(a[1..], d);
      assert [a[0]] + a[1..] == a;
    }
  }

  function PrintedPieces(options: map<string, string>, order: seq<string>): (r: seq<string>)
    requires forall k :: k in order ==> k in options
  {
    if order == [] then [] else [Field(order[0], options[order[0]])] + PrintedPieces(options, order[1..])
  }

  lemma {:induction false} SplitPrinted(name: string, options: map<string, string>, order: seq<string>)
    requires forall k :: k in order ==> k in options && ';' !in k && ';' !in options[k]
    requires ';' !in name
    ensures Split(name + Printed(options, order), ';') == [name] + PrintedPieces(options, order)
    decreases order
  {
    hide Split;
    if order == [] {
      assert name + "" == name;
      SplitWhole(name, ';');
    } else {
      var field := Field(order[0], options[order[0]]);
      var rest := field + Printed(options, order[1..]);
      assert name + Printed(options, order) == name + [';'] + rest;
      SplitJoined(name, ';', rest);
      SplitPrinted(field, options, order[1..]);
    }
  }

  lemma FieldReadBack(key: string, value: string)
    requires '=' !in key && '=' !in value
    ensures KeyOf(Field(key, value)) == key && ValueOf(Field(key, value)) == value
  {
    hide Split;
    assert Field(key, value) == key + ['='] + value;
    SplitJoined(key, '=', value);
    SplitWhole(value, '=');
  }

  /** The options named in `order`. */
  function Chosen(options: map<string, string>, order: seq<string>): map<string, string> {
    map k | k in order && k in options :: options[k]
  }

  lemma ChosenSplit(before: map<string, string>, options: map<string, string>, order: seq<string>)
    requires order != [] && order[0] in options
    ensures before[order[0] := options[order[0]]] + Chosen(options, order[1..]) == before + Chosen(options, order)
  {
  }

  lemma {:induction false} OptionsReadBack(before: map<string, string>, options: map<string, string>,
                                           order: seq<string>)
    requires forall k :: k in order ==> k in options && '=' !in k && '=' !in options[k]
    ensures AddOptions(before, PrintedPieces(options, order)) == before + Chosen(options, order)
    decreases order
  {
    hide KeyOf, ValueOf, Field;
    if order == [] {
      assert Chosen(options, order) == map[];
    } else {
      var key := order[0];
      FieldReadBack(key, options[key]);
      assert PrintedPieces(options, order)[1..] == PrintedPieces(options, order[1..]);
      hide Chosen;
      OptionsReadBack(before[key := options[key]], options, order[1..]);
      ChosenSplit(before, options, order);
    }
  }

  /** Whatever the string, what the parser returns has no separator in it. */
  lemma ParsedIsClean(s: string)
    ensures Clean(Parsed(s))
  {
    hide Split;
    SplitPieces(s, ';');
    AddedAreClean(map[], Split(s, ';')[1..]);
  }

  lemma OptionIsClean(option: string)
    requires ';' !in option
    ensures ';' !in KeyOf(option) && '=' !in KeyOf(option) && ';' !in ValueOf(option) && '=' !in ValueOf(option)
  {
    hide Split;
    SplitPieces(option, '=');
    var pieces := Split(option, '=');
    assert pieces[0] in pieces;
    assert |pieces| > 1 ==> pieces[1] in pieces;
  }

  lemma {:induction false} AddedAreClean(before: map<string, string>, pieces: seq<string>)
    requires Clean(StreamFormat("", before)) && forall p :: p in pieces ==> ';' !in p
    ensures Clean(StreamFormat("", AddOptions(before, pieces)))
    decreases pieces
  {
    hide Split;
    if pieces != [] {
      OptionIsClean(pieces[0]);
      hide KeyOf, ValueOf;
      AddedAreClean(before[KeyOf(pieces[0]) := ValueOf(pieces[0])], pieces[1..]);
    }
  }

  /**
   Printing a format, its options in any order, and parsing the result gives the format back if and only if no separator
   occurs in its name, option names or values.
   */
  lemma PrintThenParseIff(f: StreamFormat, order: seq<string>)
    requires forall k :: k in order <==> k in f.options
    ensures Parsed(f.name + Printed(f.options, order)) == f <==> Clean(f)
  {
    hide Printed;
    ParsedIsClean(f.name + Printed(f.options, order));
    if Clean(f) {
      SplitPrinted(f.name, f.options, order);
      OptionsReadBack(map[], f.options, order);
      assert map[] + Chosen(f.options, order) == f.options;
    }
  }

  /** `to_string` normalises: parsing what it prints for any parsed string gives the same name and options. */
  method ParsePrintParse(s: string) returns (first: StreamFormat, printed: string, second: StreamFormat)
    ensures first == Parsed(s) && second == first
  {
    first := Parse(s);
    printed := ToString(first);
    second := Parse(printed);
    ParsedIsClean(s);
    ghost var order :| Lists(order, first.options) && printed == first.name + Printed(first.options, order);
    PrintThenParseIff(first, order);
  }

  // ----- The parser segment by segment -----

  lemma {:induction false} SplitAppend(s: string, d: char, last: string)
    requires d !in last
    ensures Split(s + [d] + last, d) == Split(s, d) + [last]
  {
    if s == "" {
      assert ("" + [d] + last)[1..] == last;
      SplitWhole(last, d);
    } else {
      assert (s + [d] + last)[1..] == s[1..] + [d] + last;
      SplitAppend(s[1..], d, last);
    }
  }

  lemma {:induction false} AddLast(before: map<string, string>, pieces: seq<string>, last: string)
    ensures AddOptions(before, pieces + [last]) == AddOptions(before, pieces)[KeyOf(last) := ValueOf(last)]
    decreases pieces
  {
    hide KeyOf, ValueOf;
    if pieces == [] {
      assert ([] + [last])[1..] == [];
    } else {
      assert (pieces + [last])[1..] == pieces[1..] + [last];
      AddLast(before[KeyOf(pieces[0]) := ValueOf(pieces[0])], pieces[1..], last);
    }
  }

  lemma OneMoreSegment(s: string, option: string)
    requires ';' !in option
    ensures Parsed(s + ";" + option).name == Parsed(s).name
    ensures Parsed(s + ";" + option).options == Parsed(s).options[KeyOf(option) := ValueOf(option)]
  {
    hide Split, AddOptions, KeyOf, ValueOf;
    SplitAppend(s, ';', option);
    var pieces := Split(s, ';');
    assert s + ";" + option == s + [';'] + option;
    assert (pieces + [option])[1..] == pieces[1..] + [option];
    AddLast(map[], pieces[1..], option);
  }

  lemma OptionForms(key: string, value: string, rest: string)
    requires '=' !in key && '=' !in value
    ensures KeyOf(key) == key && ValueOf(key) == ""
    ensures KeyOf(key + "=" + value) == key && ValueOf(key + "=" + value) == value
    ensures KeyOf(key + "=" + value + "=" + rest) == key && ValueOf(key + "=" + value + "=" + rest) == value
  {
    hide Split;
    SplitWhole(key, '=');
    SplitWhole(value, '=');
    assert key + "=" + value == key + ['='] + value;
    SplitJoined(key, '=', value);
    assert key + "=" + value + "=" + rest == key + ['='] + (value + ['='] + rest);
    SplitJoined(key, '=', value + ['='] + rest);
    SplitJoined(value, '=', rest);
  }

  /**
   The meaning of every format string, one segment after the other. Without ';' all of it is the name. Each further
   segment sets one option: nothing after its name, or what stands between its first '=' and a second one. An empty
   segment, as after a trailing ';', sets the option with the empty name to nothing.
   */
  lemma SegmentsMean(s: string, key: string, value: string, rest: string)
    requires ';' !in key && '=' !in key && ';' !in value && '=' !in value && ';' !in rest
    ensures ';' !in s ==> Parsed(s) == StreamFormat(s, map[])
    ensures Parsed(s + ";" + key) == StreamFormat(Parsed(s).name, Parsed(s).options[key := ""])
    ensures Parsed(s + ";" + (key + "=" + value)) == StreamFormat(Parsed(s).name, Parsed(s).options[key := value])
    ensures Parsed(s + ";" + (key + "=" + value + "=" + rest))
         == StreamFormat(Parsed(s).name, Parsed(s).options[key := value])
    ensures Parsed(s + ";" + "") == StreamFormat(Parsed(s).name, Parsed(s).options["" := ""])
  {
    if ';' !in s { SplitWhole(s, ';'); }
    hide Parsed, KeyOf, ValueOf;
    OptionForms(key, value, rest);
    OptionForms("", "", "");
    OneMoreSegment(s, key);
    OneMoreSegment(s, key + "=" + value);
    OneMoreSegment(s, key + "=" + value + "=" + rest);
    OneMoreSegment(s, "");
  }
}
