/** The "key:value" line format of the dump file, and what reading a dump back does to the
    mapping: `is_valid_string`, `get_key_value_from_string`, the record written per node
    by `dump_file`, and the line loop of `load_file`. */
module LineCodec {
  import opened KeyValueMap

  /** The separator between key and value. */
  const Delimiter: char := ':'

  /** The position of the first `c` in `s`, or -1 when `s` has none (`std::string::find`,
      with -1 standing for `npos`). */
  function Find(s: string, c: char): (r: int)
    ensures -1 <= r < |s|
    ensures r == -1 <==> c !in s
    ensures r >= 0 ==> s[r] == c && c !in s[..r]
  {
    if s == [] then -1
    else if s[0] == c then 0
    else
      var t := Find(s[1..], c);
      if t == -1 then -1 else t + 1
  }

  /** A line is a record exactly when it is non-empty and holds a delimiter. */
  function IsValidString(line: string): (b: bool)
    ensures b <==> |line| > 0 && Delimiter in line
  {
    if |line| == 0 then false
    else if Find(line, Delimiter) == -1 then false
    else true
  }

  /** The key and value read from `line`. `key` and `value` are what the out-parameters
      held before the call: an invalid line leaves them as they were. A valid line splits
      at its first delimiter; the value keeps any later delimiters. */
  function GetKeyValue(line: string, key: string, value: string): (r: Pair)
    ensures !IsValidString(line) ==> r == (key, value)
    ensures IsValidString(line) ==> r.0 + [Delimiter] + r.1 == line && Delimiter !in r.0
  {
    if !IsValidString(line) then (key, value)
    else
      var p := Find(line, Delimiter);
      assert line == line[..p] + [Delimiter] + line[p + 1..];
      (line[..p], line[p + 1..])
  }

  /** The record `dump_file` writes for one node, without its line break: the key, the
      delimiter, then the value. When the key has no delimiter, the first delimiter of the
      record is the one that ends the key. */
  function Format(e: Pair): (line: string)
    ensures |line| == |e.0| + 1 + |e.1|
    ensures line[..|e.0|] == e.0 && line[|e.0|] == Delimiter && line[|e.0| + 1..] == e.1
    ensures Delimiter !in e.0 ==> Find(line, Delimiter) == |e.0|
  {
    var line := e.0 + [Delimiter] + e.1;
    assert line[..|e.0|] == e.0 && line[|e.0| + 1..] == e.1;
    if Delimiter in e.0 then line
    else FindAfterPrefix(e.0, Delimiter, e.1); line
  }

  /** The records `dump_file` writes, one per pair, in order. */
  function DumpLines(ps: seq<Pair>): (lines: seq<string>)
    ensures |lines| == |ps|
    ensures forall i :: 0 <= i < |ps| ==> lines[i] == Format(ps[i])
  {
    if ps == [] then [] else [Format(ps[0])] + DumpLines(ps[1..])
  }

  /** The text of the dump file: every record followed by a line break. A file with a
      record ends in a line break, so reading it back yields no extra line. */
  function FileText(lines: seq<string>): (text: string)
    ensures |text| >= |lines|
    ensures lines != [] ==> text[|text| - 1] == '\n'
  {
    if lines == [] then [] else lines[0] + ['\n'] + FileText(lines[1..])
  }

  /** The lines `getline` reads from `text` until the end: the pieces between line breaks,
      where a last piece without a line break still counts as a line and a final line
      break does not start another one. No line holds a line break. */
  function ReadLines(text: string): (lines: seq<string>)
    ensures forall i :: 0 <= i < |lines| ==> '\n' !in lines[i]
    decreases |text|
  {
    if text == [] then []
    else
      var i := Find(text, '\n');
      if i == -1 then [text] else [text[..i]] + ReadLines(text[i + 1..])
  }

  /** Reading back a written file gives its lines, as long as none of them holds a line
      break. */
  lemma {:induction false} ReadWrittenLines(lines: seq<string>)
    requires forall i :: 0 <= i < |lines| ==> '\n' !in lines[i]
    ensures ReadLines(FileText(lines)) == lines
  {
    if lines != [] {
      var a, tail := lines[0], lines[1..];
      var rest := FileText(tail);
      assert ReadLines(FileText(lines)) == [a] + ReadLines(rest) by {
        FileTextCons(a, tail);
        assert lines == [a] + tail;
        ReadLinesAfter(a, rest);
      }
      assert forall i :: 0 <= i < |tail| ==> '\n' !in tail[i] by {
        forall i | 0 <= i < |tail|
          ensures '\n' !in tail[i]
        {
          assert tail[i] == lines[i + 1];
        }
      }
      ReadWrittenLines(tail);
      assert lines == [a] + tail;
    }
  }

  /** Writing a list of lines puts each one in front of a line break. */
  lemma FileTextCons(a: string, ls: seq<string>)
    ensures FileText([a] + ls) == a + ['\n'] + FileText(ls)
  {
    assert ([a] + ls)[1..] == ls;
  }

  /** Writing back the lines read from a text gives the text itself, with a line break
      added at the end when its last line had none: `getline` reads a final piece without
      a line break as a line of its own. */
  lemma {:induction false} ReadThenWrite(text: string)
    ensures FileText(ReadLines(text)) == if text == [] || text[|text| - 1] == '\n' then text else text + ['\n']
    decreases |text|
  {
    if text != [] {
      var i := Find(text, '\n');
      if i == -1 {
        ReadLastLine(text);
      } else {
        ReadThenWrite(text[i + 1..]);
        ReadBrokenLine(text, i);
      }
    }
  }

  /** A text with no line break is read as one line and written back with a break added. */
  lemma ReadLastLine(text: string)
    requires text != [] && Find(text, '\n') == -1
    ensures FileText(ReadLines(text)) == text + ['\n']
    ensures text[|text| - 1] != '\n'
  {
    assert ReadLines(text) == [text];
    FileTextCons(text, []);
    assert text[|text| - 1] in text;
  }

  /** A text whose first line break is at `i` is written back as its first line, that
      break, and what writing back the rest gives. */
  lemma ReadBrokenLine(text: string, i: int)
    requires 0 <= i < |text| && Find(text, '\n') == i
    requires var rest := text[i + 1..];
      FileText(ReadLines(rest)) == if rest == [] || rest[|rest| - 1] == '\n' then rest else rest + ['\n']
    ensures FileText(ReadLines(text)) == if text[|text| - 1] == '\n' then text else text + ['\n']
  {
    var rest := text[i + 1..];
    var head := text[..i];
    SplitAround(text, i);
    ReadLinesAfter(head, rest);
    FileTextCons(head, ReadLines(rest));
    LineBreakJoin(head, rest, text, FileText(ReadLines(rest)));
  }

  /** A line with no line break, a break, and a rest are read as that line, then the
      lines of the rest. */
  lemma ReadLinesAfter(head: string, rest: string)
    requires '\n' !in head
    ensures ReadLines(head + ['\n'] + rest) == [head] + ReadLines(rest)
  {
    var text := head + ['\n'] + rest;
    FindAfterPrefix(head, '\n', rest);
    assert text[..|head|] == head && text[|head| + 1..] == rest;
  }

  /** A text is its piece before position `i`, the character there, and the rest. */
  lemma SplitAround(text: string, i: int)
    requires 0 <= i < |text|
    ensures text == text[..i] + [text[i]] + text[i + 1..]
  {
    assert text == text[..i] + text[i..];
    assert text[i..] == [text[i]] + text[i + 1..];
  }

  /** Putting a first line and a break in front of the written rest of a text gives the
      written text. */
  lemma LineBreakJoin(head: string, rest: string, text: string, w: string)
    requires text == head + ['\n'] + rest
    requires w == if rest == [] || rest[|rest| - 1] == '\n' then rest else rest + ['\n']
    ensures head + ['\n'] + w == if text[|text| - 1] == '\n' then text else text + ['\n']
  {
    if rest != [] {
      assert text[|text| - 1] == rest[|rest| - 1];
    }
  }

  /** The line loop of `load_file` on the mapping `m`: each line is parsed into the running
      key/value pair, and the pair is inserted only when both halves are non-empty. So the
      value of a key already present never changes, and every key added has a non-empty
      key and a non-empty value. */
  function Load(m: map<string, string>, lines: seq<string>, key: string, value: string): (r: map<string, string>)
    ensures forall k :: k in m ==> k in r && r[k] == m[k]
    ensures forall k :: k in r && k !in m ==> k != "" && r[k] != ""
    decreases |lines|
  {
    if lines == [] then m
    else
      var kv := GetKeyValue(lines[0], key, value);
      var m' := if kv.0 == "" || kv.1 == "" then m else InsertIfAbsent(m, kv.0, kv.1);
      Load(m', lines[1..], kv.0, kv.1)
  }

  /** The lines `is_valid_string` accepts, in order. */
  function ValidOnly(lines: seq<string>): (r: seq<string>)
    ensures |r| <= |lines|
    ensures forall i :: 0 <= i < |r| ==> IsValidString(r[i])
    ensures forall x :: x in r ==> x in lines
    ensures forall x :: x in lines && IsValidString(x) ==> x in r
  {
    if lines == [] then []
    else if IsValidString(lines[0]) then [lines[0]] + ValidOnly(lines[1..])
    else ValidOnly(lines[1..])
  }

  /** A line that is empty or has no delimiter is ignored. It leaves the running key and
      value as they were, so the loop offers the previous pair again; that pair has an
      empty half or is already present, so offering it changes nothing. Loading gives the
      same mapping as loading only the valid lines. */
  lemma {:induction false} LoadSkipsInvalid(m: map<string, string>, lines: seq<string>, key: string, value: string)
    requires key == "" || value == "" || key in m
    ensures Load(m, lines, key, value) == Load(m, ValidOnly(lines), key, value)
    decreases |lines|
  {
    if lines != [] {
      var kv := GetKeyValue(lines[0], key, value);
      var m' := if kv.0 == "" || kv.1 == "" then m else InsertIfAbsent(m, kv.0, kv.1);
      LoadSkipsInvalid(m', lines[1..], kv.0, kv.1);
      if IsValidString(lines[0]) {
        var rest := ValidOnly(lines[1..]);
        assert ValidOnly(lines) == [lines[0]] + rest;
        assert ([lines[0]] + rest)[1..] == rest;
      } else {
        assert m' == m;
        assert ValidOnly(lines) == ValidOnly(lines[1..]);
      }
    }
  }

  lemma {:induction false} FindAfterPrefix(k: string, c: char, v: string)
    requires c !in k
    ensures Find(k + [c] + v, c) == |k|
  {
    if k != [] {
      assert (k + [c] + v)[1..] == k[1..] + [c] + v;
      FindAfterPrefix(k[1..], c, v);
    }
  }

  /** Parsing a record gives back the pair it was written from, whatever the
      out-parameters held, as long as the key has no delimiter. */
  lemma ParseFormat(e: Pair, key: string, value: string)
    requires Delimiter !in e.0
    ensures GetKeyValue(Format(e), key, value) == e
  {
  }

  /** Dump/load round trip on lines: loading the records of `ps` into `m` adds exactly the
      entries of `ps` that `m` lacks, provided no key holds a delimiter and no key or value
      is empty (such records are cut differently or skipped when read back). */
  lemma {:induction false} LoadDumpRoundTrip(m: map<string, string>, ps: seq<Pair>, key: string, value: string)
    requires forall i :: 0 <= i < |ps| ==> Delimiter !in ps[i].0 && ps[i].0 != "" && ps[i].1 != ""
    ensures Load(m, DumpLines(ps), key, value) == MapOf(ps) + m
    decreases |ps|
  {
    if ps != [] {
      var e := ps[0];
      var lines := DumpLines(ps);
      ParseFormat(e, key, value);
      assert lines[0] == Format(e);
      assert lines[1..] == DumpLines(ps[1..]);
      var m' := InsertIfAbsent(m, e.0, e.1);
      assert Load(m, lines, key, value) == Load(m', lines[1..], e.0, e.1);
      LoadDumpRoundTrip(m', ps[1..], e.0, e.1);
      UnionInsert(MapOf(ps[1..]), m, e.0, e.1);
    }
  }

  /** Giving `k` a value below `m` is the same as inserting it into `m` if absent. */
  lemma UnionInsert(r: map<string, string>, m: map<string, string>, k: string, v: string)
    ensures r[k := v] + m == r + InsertIfAbsent(m, k, v)
  {
  }

  /** Writing the dump file of `ps` and loading it into an empty list reproduces the
      mapping of `ps`, provided no key holds a delimiter, no key or value holds a line
      break, and no key or value is empty. */
  lemma DumpThenLoadIntoEmpty(ps: seq<Pair>)
    requires forall i :: 0 <= i < |ps| ==>
               && Delimiter !in ps[i].0 && '\n' !in ps[i].0 && '\n' !in ps[i].1
               && ps[i].0 != "" && ps[i].1 != ""
    ensures Load(map[], ReadLines(FileText(DumpLines(ps))), [], []) == MapOf(ps)
  {
    RecordsHaveNoBreak(ps);
    ReadWrittenLines(DumpLines(ps));
    LoadDumpRoundTrip(map[], ps, [], []);
    UnionEmpty(MapOf(ps));
  }

  lemma UnionEmpty(m: map<string, string>)
    ensures m + map[] == m
  {
  }

  /** The records of pairs without line breaks hold none. */
  lemma RecordsHaveNoBreak(ps: seq<Pair>)
    requires forall i :: 0 <= i < |ps| ==> '\n' !in ps[i].0 && '\n' !in ps[i].1
    ensures forall i :: 0 <= i < |ps| ==> '\n' !in DumpLines(ps)[i]
  {
    forall i | 0 <= i < |ps|
      ensures '\n' !in DumpLines(ps)[i]
    {
      FormatNoBreak(ps[i]);
    }
  }

  /** A record holds a line break only if its key or its value does. */
  lemma FormatNoBreak(e: Pair)
    requires '\n' !in e.0 && '\n' !in e.1
    ensures '\n' !in Format(e)
  {
    assert Format(e) == e.0 + [Delimiter] + e.1;
  }

  /** A line break inside a value splits its record in two when the file is read back:
      the pair `k` to `v`, line break, `k2:w` is dumped as the two records `k:v` and
      `k2:w`, and loads as two entries (`k` keeping `v` should `k2` be `k`). For instance
      `a` to `"x\ny:z"` comes back as `a` to `"x"` and `y` to `"z"`. */
  lemma LineBreakSplitsRecord(k: string, v: string, k2: string, w: string)
    requires Delimiter !in k && Delimiter !in k2
    requires '\n' !in k && '\n' !in v && '\n' !in k2 && '\n' !in w
    requires k != "" && v != "" && k2 != "" && w != ""
    ensures var text := FileText(DumpLines([(k, v + ['\n'] + k2 + [Delimiter] + w)]));
            && ReadLines(text) == [Format((k, v)), Format((k2, w))]
            && Load(map[], ReadLines(text), [], []) == map[k2 := w][k := v]
  {
    var a, b := Format((k, v)), Format((k2, w));
    var text := FileText(DumpLines([(k, v + ['\n'] + k2 + [Delimiter] + w)]));
    assert text == FileText([a, b]) by {
      TwoRecordsInOne(k, v, k2, w);
    }
    assert ReadLines(text) == [a, b] by {
      FormatNoBreak((k, v));
      FormatNoBreak((k2, w));
      ReadWrittenLines([a, b]);
    }
    LoadTwoRecords(k, v, k2, w);
  }

  /** Loading the records `k:v` and `k2:w` into an empty list maps `k` to `v` and `k2`
      to `w`, the first record winning should the keys be the same. */
  lemma LoadTwoRecords(k: string, v: string, k2: string, w: string)
    requires Delimiter !in k && Delimiter !in k2
    requires k != "" && v != "" && k2 != "" && w != ""
    ensures Load(map[], [Format((k, v)), Format((k2, w))], [], []) == map[k2 := w][k := v]
  {
    var ps := [(k, v), (k2, w)];
    assert DumpLines(ps) == [Format((k, v)), Format((k2, w))];
    LoadDumpRoundTrip(map[], ps, [], []);
    assert ps[1..] == [(k2, w)] && ps[1..][1..] == [];
    UnionEmpty(MapOf(ps));
  }

  /** The file holding the one record `k:v`, line break, `k2:w` is the file holding the
      two records `k:v` and `k2:w`. */
  lemma TwoRecordsInOne(k: string, v: string, k2: string, w: string)
    ensures FileText(DumpLines([(k, v + ['\n'] + k2 + [Delimiter] + w)])) == FileText([Format((k, v)), Format((k2, w))])
  {
    var e := (k, v + ['\n'] + k2 + [Delimiter] + w);
    var a, b := Format((k, v)), Format((k2, w));
    assert Format(e) == a + ['\n'] + b;
    var lines := DumpLines([e]);
    assert lines == [Format(e)];
    assert FileText(lines) == Format(e) + ['\n'] + FileText([]);
    var two := [a, b];
    assert two[1..] == [b] && two[1..][1..] == [];
    assert FileText(two) == a + ['\n'] + (b + ['\n'] + FileText([]));
  }
}
