/**
 * The CSV layout of `guardar_ficheiro` and the row filter of
 * `carregar_ficheiro`. A file is modelled as its records, each already split
 * into fields; how a score is written as text (`show`) and read back
 * (`parse`, Python's `float`) are parameters.
 */
module Csv {
  import opened Wrappers
  import opened Text
  import opened Console
  import opened Validation

  /** The header record written first and skipped on load. */
  const Header: seq<string> := ["Filme", "Pontuacao"]

  /** The two parallel lists of a roster, as a load produces them. */
  datatype Table = Table(names: seq<string>, scores: seq<real>)

  /** One record `[name, score]` per entry, in roster order. */
  function Records(names: seq<string>, scores: seq<real>, show: real -> string): (rows: seq<seq<string>>)
    requires |names| == |scores|
    ensures |rows| == |names|
    ensures forall i :: 0 <= i < |rows| ==> rows[i] == [names[i], show(scores[i])]
  {
    if names == [] then [] else [[names[0], show(scores[0])]] + Records(names[1..], scores[1..], show)
  }

  /** The whole file `guardar_ficheiro` writes: the header, then the records. */
  function SavedFile(names: seq<string>, scores: seq<real>, show: real -> string): (file: seq<seq<string>>)
    requires |names| == |scores|
    ensures |file| == |names| + 1 && file[0] == Header
    ensures forall i :: 0 <= i < |names| ==> file[i + 1] == [names[i], show(scores[i])]
  {
    [Header] + Records(names, scores, show)
  }

  /** The writing loop of `guardar_ficheiro`: the header, then one record per entry. */
  method WriteRecords(names: seq<string>, scores: seq<real>, show: real -> string) returns (rows: seq<seq<string>>)
    requires |names| == |scores|
    ensures rows == SavedFile(names, scores, show)
  {
    rows := [Header];
    for i := 0 to |names|
      invariant |rows| == i + 1 && rows[0] == Header
      invariant forall k :: 0 <= k < i ==> rows[k + 1] == [names[k], show(scores[k])]
    {
      rows := rows + [[names[i], show(scores[i])]];
    }
    assert rows == SavedFile(names, scores, show);
  }

  /** The load keeps a record when it has two fields and a name that is not blank. */
  predicate Kept(row: seq<string>) {
    |row| >= 2 && !Blank(row[0])
  }

  /** Both loads succeed, and their tables are joined end to end. */
  function Join(a: Option<Table>, b: Option<Table>): (r: Option<Table>) {
    if a.Some? && b.Some? then Some(Table(a.value.names + b.value.names, a.value.scores + b.value.scores))
    else None
  }

  /**
   * The record loop of `carregar_ficheiro`: for each kept record, the
   * stripped name and the converted score are appended; one score that does
   * not convert makes the whole load fail.
   */
  function LoadRecords(rows: seq<seq<string>>, parse: string -> Option<real>): (r: Option<Table>)
    ensures r.Some? ==> |r.value.names| == |r.value.scores|
  {
    if rows == [] then Some(Table([], []))
    else
      var rest := LoadRecords(rows[1..], parse);
      if !Kept(rows[0]) then rest
      else if parse(rows[0][1]).None? then None
      else Join(Some(Table([Strip(rows[0][0])], [parse(rows[0][1]).value])), rest)
  }

  /** `carregar_ficheiro` on a file: the first record (the header) is skipped. */
  function LoadFile(rows: seq<seq<string>>, parse: string -> Option<real>): Option<Table> {
    if rows == [] then LoadRecords([], parse) else LoadRecords(rows[1..], parse)
  }

  /**
   * The record loop of `carregar_ficheiro` over a file: the header is
   * skipped, kept records are appended in order, and the first kept record
   * whose score does not convert ends the load with nothing.
   */
  method ReadRecords(rows: seq<seq<string>>, parse: string -> Option<real>) returns (r: Option<Table>)
    ensures r == LoadFile(rows, parse)
  {
    var data := if rows == [] then [] else rows[1..];
    var names, scores := [], [];
    for i := 0 to |data|
      invariant LoadRecords(data[..i], parse) == Some(Table(names, scores))
    {
      var row := data[i];
      LoadStep(data, i, parse, Table(names, scores));
      if |row| >= 2 && Strip(row[0]) != [] {
        var score := parse(row[1]);
        if score.None? {
          return None;
        }
        names := names + [Strip(row[0])];
        scores := scores + [score.value];
      }
    }
    assert data[..|data|] == data;
    return Some(Table(names, scores));
  }

  /** A single record: appended when kept and its score converts, skipped when not kept. */
  lemma LoadOne(row: seq<string>, parse: string -> Option<real>)
    ensures !Kept(row) ==> LoadRecords([row], parse) == Some(Table([], []))
    ensures Kept(row) && parse(row[1]).None? ==> LoadRecords([row], parse) == None
    ensures Kept(row) && parse(row[1]).Some? ==>
      LoadRecords([row], parse) == Some(Table([Strip(row[0])], [parse(row[1]).value]))
  {
    assert [row][1..] == [];
    if Kept(row) && parse(row[1]).Some? {
      assert [Strip(row[0])] + [] == [Strip(row[0])];
      assert [parse(row[1]).value] + [] == [parse(row[1]).value];
    }
  }

  /** Loading records in file order: a load of two parts is the join of their loads. */
  lemma {:induction false} LoadAppend(rows1: seq<seq<string>>, rows2: seq<seq<string>>, parse: string -> Option<real>)
    ensures LoadRecords(rows1 + rows2, parse) == Join(LoadRecords(rows1, parse), LoadRecords(rows2, parse))
  {
    if rows1 == [] {
      assert rows1 + rows2 == rows2;
      var r := LoadRecords(rows2, parse);
      if r.Some? {
        assert [] + r.value.names == r.value.names && [] + r.value.scores == r.value.scores;
      }
    } else {
      assert (rows1 + rows2)[1..] == rows1[1..] + rows2;
      LoadAppend(rows1[1..], rows2, parse);
      var row := rows1[0];
      if Kept(row) && parse(row[1]).Some? {
        JoinAssociative(Some(Table([Strip(row[0])], [parse(row[1]).value])),
                        LoadRecords(rows1[1..], parse), LoadRecords(rows2, parse));
      }
    }
  }

  /**
   * One more record after a successful load of `rows[..i]`: appended when
   * it is kept and its score converts, skipped when it is not kept; when the
   * score of a kept record does not convert, the load of all of `rows` fails.
   */
  lemma LoadStep(rows: seq<seq<string>>, i: nat, parse: string -> Option<real>, t: Table)
    requires i < |rows| && LoadRecords(rows[..i], parse) == Some(t)
    ensures Kept(rows[i]) <==> |rows[i]| >= 2 && Strip(rows[i][0]) != []
    ensures !Kept(rows[i]) ==> LoadRecords(rows[..i + 1], parse) == Some(t)
    ensures Kept(rows[i]) && parse(rows[i][1]).None? ==> LoadRecords(rows, parse) == None
    ensures Kept(rows[i]) && parse(rows[i][1]).Some? ==>
      LoadRecords(rows[..i + 1], parse) == Some(Table(t.names + [Strip(rows[i][0])], t.scores + [parse(rows[i][1]).value]))
  {
    var row := rows[i];
    assert rows[..i + 1] == rows[..i] + [row];
    LoadAppend(rows[..i], [row], parse);
    LoadOne(row, parse);
    assert t.names + [] == t.names && t.scores + [] == t.scores;
    if Kept(row) && parse(row[1]).None? {
      LoadAppend(rows[..i + 1], rows[i + 1..], parse);
      assert rows[..i + 1] + rows[i + 1..] == rows;
    }
  }

  lemma JoinAssociative(a: Option<Table>, b: Option<Table>, c: Option<Table>)
    ensures Join(a, Join(b, c)) == Join(Join(a, b), c)
  {
    if a.Some? && b.Some? && c.Some? {
      assert a.value.names + (b.value.names + c.value.names) == (a.value.names + b.value.names) + c.value.names;
      assert a.value.scores + (b.value.scores + c.value.scores) == (a.value.scores + b.value.scores) + c.value.scores;
    }
  }

  /** The record at position k is kept but its score does not convert. */
  predicate Unparsable(rows: seq<seq<string>>, parse: string -> Option<real>, k: int)
    requires 0 <= k < |rows|
  {
    Kept(rows[k]) && parse(rows[k][1]).None?
  }

  /** The load fails exactly when some kept record has a score that does not convert. */
  lemma {:induction false} LoadFailsIff(rows: seq<seq<string>>, parse: string -> Option<real>)
    ensures LoadRecords(rows, parse).None? <==> exists k :: 0 <= k < |rows| && Unparsable(rows, parse, k)
  {
    if rows != [] {
      var tail := rows[1..];
      LoadFailsIff(tail, parse);
      forall k | 0 <= k < |tail| ensures Unparsable(tail, parse, k) == Unparsable(rows, parse, k + 1) {
        assert tail[k] == rows[k + 1];
      }
      if Unparsable(rows, parse, 0) {
        assert LoadRecords(rows, parse).None?;
      } else if exists k :: 0 <= k < |tail| && Unparsable(tail, parse, k) {
        var k :| 0 <= k < |tail| && Unparsable(tail, parse, k);
        assert Unparsable(rows, parse, k + 1);
      } else {
        assert !exists k :: 0 <= k < |rows| && Unparsable(rows, parse, k) by {
          forall k | 0 <= k < |rows| ensures !Unparsable(rows, parse, k) {
            if k > 0 { assert !Unparsable(tail, parse, k - 1); }
          }
        }
      }
    }
  }

  /** Every name a load produces is non-empty and already stripped. */
  lemma {:induction false} LoadedNamesAreFilmNames(rows: seq<seq<string>>, parse: string -> Option<real>)
    ensures LoadRecords(rows, parse).Some? ==> AllFilmNames(LoadRecords(rows, parse).value.names)
  {
    if rows != [] {
      LoadedNamesAreFilmNames(rows[1..], parse);
      var rest := LoadRecords(rows[1..], parse);
      if Kept(rows[0]) && parse(rows[0][1]).Some? && rest.Some? {
        var names := [Strip(rows[0][0])] + rest.value.names;
        assert LoadRecords(rows, parse).value.names == names;
        forall i | 0 <= i < |names| ensures FilmName(names[i]) {
          if i > 0 {
            assert names[i] == rest.value.names[i - 1];
          }
        }
      }
    }
  }

  /** The same for a whole file, whose header is skipped. */
  lemma LoadFileNames(rows: seq<seq<string>>, parse: string -> Option<real>)
    ensures LoadFile(rows, parse).Some? ==> AllFilmNames(LoadFile(rows, parse).value.names)
  {
    LoadedNamesAreFilmNames(if rows == [] then [] else rows[1..], parse);
  }

  /**
   * Saving and loading back reproduces the roster, when every name is
   * already stripped and not empty and `parse` reads back what `show` writes.
   */
  lemma {:induction false} SaveThenLoad(names: seq<string>, scores: seq<real>,
                                        show: real -> string, parse: string -> Option<real>)
    requires |names| == |scores|
    requires forall i :: 0 <= i < |names| ==> FilmName(names[i])
    requires forall i :: 0 <= i < |scores| ==> parse(show(scores[i])) == Some(scores[i])
    ensures LoadFile(SavedFile(names, scores, show), parse) == Some(Table(names, scores))
  {
    assert SavedFile(names, scores, show)[1..] == Records(names, scores, show);
    RecordsLoadBack(names, scores, show, parse);
  }

  lemma {:induction false} RecordsLoadBack(names: seq<string>, scores: seq<real>,
                                           show: real -> string, parse: string -> Option<real>)
    requires |names| == |scores|
    requires forall i :: 0 <= i < |names| ==> FilmName(names[i])
    requires forall i :: 0 <= i < |scores| ==> parse(show(scores[i])) == Some(scores[i])
    ensures LoadRecords(Records(names, scores, show), parse) == Some(Table(names, scores))
  {
    if names != [] {
      var rows := Records(names, scores, show);
      assert rows[1..] == Records(names[1..], scores[1..], show);
      RecordsLoadBack(names[1..], scores[1..], show, parse);
      assert !Blank(names[0]);
      StripKeepsTrimmed(names[0]);
      assert names == [names[0]] + names[1..];
      assert scores == [scores[0]] + scores[1..];
    }
  }

  /**
   * The load does not check the range of the scores it reads: a record is
   * taken with whatever number its score converts to, even one outside the
   * [0, 20] that entry and update insist on.
   */
  lemma {:induction false} LoadAcceptsAnyScore(name: string, text: string, v: real, parse: string -> Option<real>)
    requires FilmName(name) && parse(text) == Some(v)
    ensures LoadFile([Header, [name, text]], parse) == Some(Table([name], [v]))
  {
    var row := [name, text];
    assert [Header, row][1..] == [row];
    StripKeepsTrimmed(name);
    LoadOne(row, parse);
  }
}
