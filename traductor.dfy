/**
 * The dictionary record loader of the keyword translator (`cargarDatos`):
 * how the lines of the dictionary file become `PalabraInfo` records.
 *
 * Each line is cut by three chained `getline` calls on a string stream
 * (module Getline); `ReadRecord` runs them. `ParseRecord` is the independent,
 * comma-based reading of the same rule, and `ReadRecord` is proved to agree
 * with it. `Load` and `Warnings` say what a whole file yields; the
 * `Dictionary` class holds the vector that `cargarDatos` rebuilds in place.
 */
module Traductor {
  import opened Getline

  datatype Option<T> = None | Some(value: T)

  /** A dictionary record (`struct PalabraInfo`): keyword, translation, description. */
  datatype Entry = Entry(keyword: string, translation: string, description: string)

  /** The record written as one comma-separated line. */
  function Format(e: Entry): string
  {
    e.keyword + "," + e.translation + "," + e.description
  }

  // ---------------------------------------------------------------------
  // One line
  // ---------------------------------------------------------------------

  /**
   * The acceptance rule read off the commas: a line is a record when it has
   * a first comma, a second comma, and at least one character after the
   * second one. The fields are the three pieces between them.
   */
  function ParseRecord(line: string): (r: Option<Entry>)
    ensures r.Some? ==> Format(r.value) == line
    ensures r.Some? ==> ',' !in r.value.keyword && ',' !in r.value.translation
    ensures r.Some? ==> r.value.description != []
  {
    var i := IndexOf(line, ',', 0);
    if i == |line| then None
    else
      var j := IndexOf(line, ',', i + 1);
      if j + 1 >= |line| then None
      else Some(Entry(line[..i], line[i + 1..j], line[j + 1..]))
  }

  /**
   * The condition of the `if` in `cargarDatos`: `getline` up to the first
   * `','` into the keyword of `temp`, up to the next `','` into its
   * translation, then the rest of the line into its description, each call
   * made only when the previous one left the stream without failure. `temp`
   * is the record reused across lines; `rec` is what it holds afterwards.
   * For a line as the file reader delivers it (no `'\n'` inside) the calls
   * accept exactly the lines `ParseRecord` accepts, and then leave exactly
   * its record, whatever `temp` held before.
   */
  method ReadRecord(line: string, temp: Entry) returns (ok: bool, rec: Entry)
    requires '\n' !in line
    ensures ok <==> ParseRecord(line).Some?
    ensures ok ==> rec == ParseRecord(line).value
  {
    rec := temp;
    var ss := Open(line);
    ghost var i := IndexOf(line, ',', 0);
    var got := GetLine(ss, rec.keyword, ',');
    ss, rec := got.0, rec.(keyword := got.1);
    ok := !ss.fail;
    if !ok {
      assert line == [] && ParseRecord(line) == None;
    } else {
      assert rec.keyword == line[..i];
      if i == |line| {
        assert ss.eof;
        assert ParseRecord(line) == None;
      }
      ghost var j := if i < |line| then IndexOf(line, ',', i + 1) else |line|;
      got := GetLine(ss, rec.translation, ',');
      ss, rec := got.0, rec.(translation := got.1);
      ok := !ss.fail;
      if ok {
        assert i < |line| && (j < |line| ==> ss.pos == j + 1 && !ss.eof);
        assert rec.translation == line[i + 1..j];
        if j == |line| {
          assert ss.eof;
          assert ParseRecord(line) == None;
        }
        got := GetLine(ss, rec.description, '\n');
        ss, rec := got.0, rec.(description := got.1);
        ok := !ss.fail;
        if ok {
          assert j + 1 < |line| && rec.description == line[j + 1..];
          assert ParseRecord(line) == Some(rec);
        } else {
          assert j + 1 >= |line|;
        }
      }
    }
  }

  /**
   * The acceptance rule as a statement about the line alone: accepted iff
   * there are two commas the later of which is followed by a character.
   */
  lemma {:induction false} AcceptedIff(line: string)
    ensures ParseRecord(line).Some? <==>
      exists a, b :: 0 <= a < b < |line| - 1 && line[a] == ',' && line[b] == ','
  {
    var i := IndexOf(line, ',', 0);
    if i < |line| {
      var j := IndexOf(line, ',', i + 1);
      if j + 1 < |line| {
        assert line[i] == ',' && line[j] == ',';
      }
    }
  }

  /**
   * Writing a record out and reading the line back gives the record again,
   * provided neither of its first two fields holds a comma and its
   * description is not empty.
   */
  lemma {:induction false} ParseFormat(e: Entry)
    requires ',' !in e.keyword && ',' !in e.translation && e.description != []
    ensures ParseRecord(Format(e)) == Some(e)
  {
    var line := Format(e);
    var n := |e.keyword|;
    var m := |e.translation|;
    assert line[n] == ',';
    assert forall k :: 0 <= k < n ==> line[k] == e.keyword[k];
    assert IndexOf(line, ',', 0) == n;
    assert line[n + 1 + m] == ',';
    assert forall k :: n + 1 <= k < n + 1 + m ==> line[k] == e.translation[k - n - 1];
    assert IndexOf(line, ',', n + 1) == n + 1 + m;
    assert line[..n] == e.keyword;
    assert line[n + 1..n + 1 + m] == e.translation;
    assert line[n + 1 + m + 1..] == e.description;
  }

  /**
   * The edge cases of the rule: an empty keyword is accepted, a line that
   * ends right after its second comma, a line with one comma and the empty
   * line are not, and further commas stay in the description.
   */
  lemma ParseExamples()
    ensures ParseRecord(",x,y") == Some(Entry("", "x", "y"))
    ensures ParseRecord("a,b,c,d") == Some(Entry("a", "b", "c,d"))
    ensures ParseRecord("a,b,") == None
    ensures ParseRecord("a,b") == None
    ensures ParseRecord("") == None
  {
    assert Format(Entry("", "x", "y")) == ",x,y";
    ParseFormat(Entry("", "x", "y"));
    assert Format(Entry("a", "b", "c,d")) == "a,b,c,d";
    ParseFormat(Entry("a", "b", "c,d"));
    assert IndexOf("a,b,", ',', 0) == 1;
    assert IndexOf("a,b,", ',', 2) == 3;
    assert IndexOf("a,b", ',', 0) == 1;
    assert IndexOf("a,b", ',', 2) == 3;
  }

  // ---------------------------------------------------------------------
  // A whole file
  // ---------------------------------------------------------------------

  /** A file's lines as `getline` delivers them: none holds a `'\n'`. */
  predicate IsLines(lines: seq<string>)
  {
    forall k :: 0 <= k < |lines| ==> '\n' !in lines[k]
  }

  /** The records a file yields: one per accepted line, in file order. */
  function Load(lines: seq<string>): (r: seq<Entry>)
    ensures |r| <= |lines|
  {
    if lines == [] then []
    else
      var rest := Load(lines[..|lines| - 1]);
      match ParseRecord(lines[|lines| - 1])
      case Some(e) => rest + [e]
      case None => rest
  }

  /** The accepted lines of a file, in file order. */
  function Accepted(lines: seq<string>): (r: seq<string>)
    ensures |r| <= |lines|
    ensures forall k :: 0 <= k < |r| ==> r[k] in lines && ParseRecord(r[k]).Some?
  {
    if lines == [] then []
    else
      var rest := Accepted(lines[..|lines| - 1]);
      var last := lines[|lines| - 1];
      if ParseRecord(last).Some? then rest + [last] else rest
  }

  /** The lines warned about: rejected lines that are not empty, in file order. */
  function Warnings(lines: seq<string>): (r: seq<string>)
    ensures |r| <= |lines|
    ensures forall k :: 0 <= k < |r| ==> r[k] in lines && r[k] != [] && ParseRecord(r[k]).None?
  {
    if lines == [] then []
    else
      var rest := Warnings(lines[..|lines| - 1]);
      var last := lines[|lines| - 1];
      if ParseRecord(last).None? && last != [] then rest + [last] else rest
  }

  /** The number of empty lines of a file. */
  function Blanks(lines: seq<string>): nat
  {
    if lines == [] then 0
    else Blanks(lines[..|lines| - 1]) + (if lines[|lines| - 1] == [] then 1 else 0)
  }

  /**
   * Round trip, order and count: the records of a file, written back, are
   * exactly its accepted lines in file order, one record per line.
   */
  lemma {:induction false} LoadFormat(lines: seq<string>)
    ensures |Load(lines)| == |Accepted(lines)|
    ensures forall k :: 0 <= k < |Load(lines)| ==> Format(Load(lines)[k]) == Accepted(lines)[k]
  {
    if lines != [] {
      LoadFormat(lines[..|lines| - 1]);
    }
  }

  /**
   * Loading a file made of two parts loads the first part, then the
   * second: records are appended in file order.
   */
  lemma {:induction false} LoadAppend(a: seq<string>, b: seq<string>)
    ensures Load(a + b) == Load(a) + Load(b)
    decreases |b|
  {
    if b == [] {
      assert a + b == a;
    } else {
      var init, last := b[..|b| - 1], b[|b| - 1];
      assert (a + b)[..|a + b| - 1] == a + init && (a + b)[|a + b| - 1] == last;
      LoadAppend(a, init);
    }
  }

  /** The warnings for a file made of two parts are those of the first part, then the second. */
  lemma {:induction false} WarningsAppend(a: seq<string>, b: seq<string>)
    ensures Warnings(a + b) == Warnings(a) + Warnings(b)
    decreases |b|
  {
    if b == [] {
      assert a + b == a;
    } else {
      var init, last := b[..|b| - 1], b[|b| - 1];
      assert (a + b)[..|a + b| - 1] == a + init && (a + b)[|a + b| - 1] == last;
      WarningsAppend(a, init);
    }
  }

  /**
   * A record is loaded exactly when some line of the file reads as it: no
   * record is invented, none is checked against the others (duplicate and
   * empty keywords are kept), and no field is trimmed.
   */
  lemma {:induction false} LoadMembership(lines: seq<string>, e: Entry)
    ensures e in Load(lines) <==> exists k :: 0 <= k < |lines| && ParseRecord(lines[k]) == Some(e)
  {
    if lines != [] {
      var init := lines[..|lines| - 1];
      LoadMembership(init, e);
      assert forall k :: 0 <= k < |init| ==> init[k] == lines[k];
    }
  }

  /** Every line is loaded, warned about or empty, and only one of these. */
  lemma {:induction false} LinesPartition(lines: seq<string>)
    ensures |Load(lines)| + |Warnings(lines)| + Blanks(lines) == |lines|
  {
    if lines != [] {
      LinesPartition(lines[..|lines| - 1]);
    }
  }

  /** A warning is issued for a line exactly when it is rejected and not empty. */
  lemma {:induction false} WarningsMembership(lines: seq<string>, w: string)
    ensures w in Warnings(lines) <==> w in lines && w != [] && ParseRecord(w).None?
  {
    if lines != [] {
      var init := lines[..|lines| - 1];
      WarningsMembership(init, w);
      assert lines == init + [lines[|lines| - 1]];
    }
  }

  // ---------------------------------------------------------------------
  // The loader
  // ---------------------------------------------------------------------

  /** The `vector<PalabraInfo>` that the program passes around by reference. */
  class Dictionary {
    var entries: seq<Entry>

    constructor ()
      ensures entries == []
    {
      entries := [];
    }

    /**
     * `cargarDatos`: the file is `None` when it cannot be opened, otherwise
     * its lines. The dictionary is cleared first, so what it holds afterwards
     * depends on the file alone; the result lists the lines warned about.
     */
    method CargarDatos(file: Option<seq<string>>) returns (warnings: seq<string>)
      requires file.Some? ==> IsLines(file.value)
      modifies this
      ensures file.None? ==> entries == [] && warnings == []
      ensures file.Some? ==> entries == Load(file.value) && warnings == Warnings(file.value)
    {
      entries := [];
      warnings := [];
      if file.Some? {
        var lines := file.value;
        var temp := Entry("", "", "");
        var i := 0;
        while i < |lines|
          invariant 0 <= i <= |lines|
          invariant entries == Load(lines[..i])
          invariant warnings == Warnings(lines[..i])
        {
          var line := lines[i];
          var ok;
          ok, temp := ReadRecord(line, temp);
          assert lines[..i + 1][..i] == lines[..i];
          if ok {
            entries := entries + [temp];
          } else if line != [] {
            warnings := warnings + [line];
          }
          i := i + 1;
        }
        assert lines[..i] == lines;
      }
    }
  }
}
