/**
 * The roster manager of oscares.py: the two parallel global lists
 * `lista_filmes` and `lista_pontuacoes`, held by one object, and the
 * operations of the menu that read or change them. Each operation receives
 * the console lines the user types during it (`input`) and the conversions it
 * applies to them (`parseInt` for `int(...)`, `parseReal` for `float(...)`).
 */
module Oscares {
  import opened Wrappers
  import opened Text
  import opened Validation
  import opened Console
  import opened Ranking
  import opened Csv

  /** How many of the best-ranked films the podium shows with a medal. */
  const PodiumPlaces: nat := 3

  /** Why an operation that picks an entry by its number did nothing. */
  datatype Refusal =
    | NoData         // the roster is empty
    | InputEnded     // the console had no more lines
    | NotANumber     // the number line does not convert to an integer
    | InvalidNumber  // the number is not one of the displayed numbers 1..n

  /** The entry chosen by its displayed number, or why none was. */
  datatype Selection = Refused(reason: Refusal) | Selected(index: nat)

  datatype ChangeResult = ChangeRefused(reason: Refusal) | Changed(index: nat, previous: real, current: real)

  datatype DeleteResult = DeleteRefused(reason: Refusal) | Cancelled | Deleted(index: nat, film: string, score: real)

  datatype SearchResult = SearchRefused(reason: Refusal) | EmptyTerm | Found(positions: seq<nat>)

  /** The ranking shows its first `medals` entries on the podium and the rest below. */
  datatype PodiumResult = NothingToShow | Podium(names: seq<string>, scores: seq<real>, medals: nat)

  datatype SaveResult = NothingToSave | Saved(rows: seq<seq<string>>)

  datatype LoadResult = NotFound | Loaded(count: nat) | LoadFailed

  /**
   * The first steps of `alterar_dados` and `eliminar_dados`: an empty roster
   * is refused before anything is read; otherwise the first line is the
   * displayed number k, and position k - 1 is chosen when it is in bounds.
   */
  function SelectEntry(size: nat, input: seq<string>, parseInt: string -> Option<int>): (r: Selection)
    ensures size == 0 ==> r == Refused(NoData)
    ensures size > 0 && |input| == 0 ==> r == Refused(InputEnded)
    ensures size > 0 && |input| > 0 && parseInt(input[0]).None? ==> r == Refused(NotANumber)
    ensures r.Selected? <==> size > 0 && |input| > 0 && parseInt(input[0]).Some? && 1 <= parseInt(input[0]).value <= size
    ensures r.Selected? ==> r.index < size && r.index + 1 == parseInt(input[0]).value
    ensures r.Refused? && size > 0 && |input| > 0 && parseInt(input[0]).Some? ==> r == Refused(InvalidNumber)
  {
    if size == 0 then Refused(NoData)
    else if |input| == 0 then Refused(InputEnded)
    else if parseInt(input[0]).None? then Refused(NotANumber)
    else
      var index := DisplayedIndex(parseInt(input[0]).value, size);
      if index.None? then Refused(InvalidNumber) else Selected(index.value)
  }

  /** `input(...).upper() == "S"`: the answer that confirms a deletion. */
  predicate Confirms(answer: string) {
    Upper(answer) == "S"
  }

  /** The confirming answers are exactly "S" and "s". */
  lemma ConfirmingAnswers(answer: string)
    ensures Confirms(answer) <==> answer == "S" || answer == "s"
  {
    if Confirms(answer) {
      assert |answer| == 1 && UpperChar(answer[0]) == Upper(answer)[0];
      assert answer == [answer[0]];
    }
  }

  /** `list.pop(i)`: the element at position i removed, the others kept in order. */
  function RemoveAt<T>(s: seq<T>, i: nat): (r: seq<T>)
    requires i < |s|
    ensures |r| == |s| - 1
    ensures forall k :: 0 <= k < i ==> r[k] == s[k]
    ensures forall k :: i <= k < |r| ==> r[k] == s[k + 1]
  {
    s[..i] + s[i + 1..]
  }

  /** The films a search term matches: the lower-cased term occurs in the lower-cased name. */
  predicate Matches(term: string, film: string) {
    IsSubstring(term, Lower(film))
  }

  /**
   * `positions` lists, in increasing order, exactly the films among the
   * first `upto` that the term matches.
   */
  predicate Hits(positions: seq<nat>, term: string, films: seq<string>, upto: nat)
    requires upto <= |films|
  {
    && (forall j :: 0 <= j < |positions| ==> positions[j] < upto)
    && (forall j, k :: 0 <= j < k < |positions| ==> positions[j] < positions[k])
    && (forall p :: 0 <= p < upto ==> (p in positions <==> Matches(term, films[p])))
  }

  lemma SkipMiss(positions: seq<nat>, term: string, films: seq<string>, i: nat)
    requires i < |films| && Hits(positions, term, films, i) && !Matches(term, films[i])
    ensures Hits(positions, term, films, i + 1)
  {
  }

  lemma AddHit(positions: seq<nat>, term: string, films: seq<string>, i: nat)
    requires i < |films| && Hits(positions, term, films, i) && Matches(term, films[i])
    ensures Hits(positions + [i], term, films, i + 1)
  {
  }

  /** The loop of `pesquisar_filme` over the roster: the positions of the films the term matches. */
  method MatchingFilms(term: string, films: seq<string>) returns (positions: seq<nat>)
    ensures Hits(positions, term, films, |films|)
  {
    positions := [];
    for i := 0 to |films|
      invariant Hits(positions, term, films, i)
    {
      if IsSubstring(term, Lower(films[i])) {
        AddHit(positions, term, films, i);
        positions := positions + [i];
      } else {
        SkipMiss(positions, term, films, i);
      }
    }
  }

  class Roster {
    /** `lista_filmes` */
    var films: seq<string>
    /** `lista_pontuacoes` */
    var scores: seq<real>

    /**
     * The lists stay parallel, and every name is non-empty and stripped
     * (both the entry prompt and the loader strip names and refuse blank ones).
     */
    ghost predicate Valid()
      reads this
    {
      |films| == |scores| && AllFilmNames(films)
    }

    /** Every score lies in [0, 20]; entry and update keep it, loading does not check it. */
    ghost predicate ScoresValid()
      reads this
    {
      forall i :: 0 <= i < |scores| ==> ValidScore(scores[i])
    }

    /** The program starts with both lists empty. */
    constructor ()
      ensures Valid() && ScoresValid()
      ensures films == [] && scores == []
    {
      films, scores := [], [];
    }

    /**
     * `introducao_dados`: the lists are emptied, then filled one film at a
     * time, as `EnterFilms` describes; `complete` is false when the console
     * ran out of lines before the tenth film.
     */
    method EnterManually(input: seq<string>, parse: string -> Option<real>) returns (complete: bool)
      modifies this
      ensures Valid() && ScoresValid()
      ensures films == EnterFilms(input, parse).names && scores == EnterFilms(input, parse).scores
      ensures complete == EnterFilms(input, parse).complete
    {
      var names, entered, done := ReadFilms(input, parse);
      EnteredFilmsAreValid(input, parse);
      films, scores, complete := names, entered, done;
    }

    /**
     * `alterar_dados`: picks an entry by its displayed number, asks for a new
     * score until one in [0, 20] is given, and replaces that entry's score.
     * Names, the other scores and both lengths stay as they were; when no entry
     * is picked, or the console runs out, nothing changes.
     */
    method ChangeScore(input: seq<string>, parseInt: string -> Option<int>, parseReal: string -> Option<real>)
      returns (result: ChangeResult)
      requires Valid()
      modifies this
      ensures Valid() && films == old(films)
      ensures old(ScoresValid()) ==> ScoresValid()
      ensures SelectEntry(|films|, input, parseInt).Refused? ==>
        result == ChangeRefused(SelectEntry(|films|, input, parseInt).reason) && scores == old(scores)
      ensures SelectEntry(|films|, input, parseInt).Selected? && NextScore(input, parseReal, 1).None? ==>
        result == ChangeRefused(InputEnded) && scores == old(scores)
      ensures SelectEntry(|films|, input, parseInt).Selected? && NextScore(input, parseReal, 1).Some? ==>
        result.Changed? && result.index == SelectEntry(|films|, input, parseInt).index
        && result.current == parseReal(input[NextScore(input, parseReal, 1).value]).value
      ensures result.Changed? ==>
        && result.index < |films| && ValidScore(result.current)
        && result.previous == old(scores)[result.index]
        && scores == old(scores)[result.index := result.current]
    {
      var selection := SelectEntry(|films|, input, parseInt);
      if selection.Refused? {
        return ChangeRefused(selection.reason);
      }
      var index := selection.index;
      var score := ReadScore(input, parseReal, 1);
      if score.None? {
        return ChangeRefused(InputEnded);
      }
      var previous := scores[index];
      scores := scores[index := score.value.0];
      return Changed(index, previous, score.value.0);
    }

    /**
     * `eliminar_dados`: picks an entry by its displayed number and, when the
     * next line confirms, removes it from both lists; the entries after it
     * move one position up. Any other answer leaves the roster as it was.
     */
    method Delete(input: seq<string>, parseInt: string -> Option<int>) returns (result: DeleteResult)
      requires Valid()
      modifies this
      ensures Valid()
      ensures old(ScoresValid()) ==> ScoresValid()
      ensures !result.Deleted? ==> films == old(films) && scores == old(scores)
      ensures SelectEntry(|old(films)|, input, parseInt).Refused? ==>
        result == DeleteRefused(SelectEntry(|old(films)|, input, parseInt).reason)
      ensures SelectEntry(|old(films)|, input, parseInt).Selected? ==>
        && (|input| < 2 ==> result == DeleteRefused(InputEnded))
        && (|input| >= 2 && !Confirms(input[1]) ==> result == Cancelled)
        && (|input| >= 2 && Confirms(input[1]) ==> result.Deleted?)
      ensures result.Deleted? ==>
        && result.index == SelectEntry(|old(films)|, input, parseInt).index
        && result.film == old(films)[result.index] && result.score == old(scores)[result.index]
        && films == RemoveAt(old(films), result.index) && scores == RemoveAt(old(scores), result.index)
    {
      var selection := SelectEntry(|films|, input, parseInt);
      if selection.Refused? {
        return DeleteRefused(selection.reason);
      }
      var index := selection.index;
      if |input| < 2 {
        return DeleteRefused(InputEnded);
      }
      if !Confirms(input[1]) {
        return Cancelled;
      }
      result := Deleted(index, films[index], scores[index]);
      films := RemoveAt(films, index);
      scores := RemoveAt(scores, index);
    }

    /**
     * `pesquisar_filme`: the term is the first line, stripped and lower-cased;
     * a blank term is refused. Otherwise the result lists, in increasing order,
     * exactly the positions whose lower-cased name contains the term.
     */
    method Search(input: seq<string>) returns (result: SearchResult)
      requires Valid()
      ensures films == [] ==> result == SearchRefused(NoData)
      ensures films != [] && |input| == 0 ==> result == SearchRefused(InputEnded)
      ensures films != [] && |input| > 0 && Blank(input[0]) ==> result == EmptyTerm
      ensures films != [] && |input| > 0 && !Blank(input[0]) ==> result.Found?
      ensures result.Found? ==> Hits(result.positions, Lower(Strip(input[0])), films, |films|)
    {
      if films == [] {
        return SearchRefused(NoData);
      }
      if |input| == 0 {
        return SearchRefused(InputEnded);
      }
      var term := Lower(Strip(input[0]));
      if term == [] {
        return EmptyTerm;
      }
      var positions := MatchingFilms(term, films);
      return Found(positions);
    }

    /**
     * `apresentar_podio`: ranks copies of the two lists with the bubble sort;
     * the live lists are not touched. The ranking is non-increasing by score,
     * a pairing-preserving rearrangement of the roster, stable for equal
     * scores, and its first min(3, n) entries form the podium.
     */
    method ShowPodium() returns (result: PodiumResult, ghost perm: seq<nat>)
      requires Valid()
      ensures films == [] <==> result == NothingToShow
      ensures result.Podium? ==>
        && result.medals == (if |films| < PodiumPlaces then |films| else PodiumPlaces)
        && SortedDesc(result.scores)
        && Rearranged(result.names, films, perm) && Rearranged(result.scores, scores, perm)
        && Stable(result.scores, perm)
        && multiset(Pairs(result.names, result.scores)) == multiset(Pairs(films, scores))
    {
      if films == [] {
        return NothingToShow, [];
      }
      var names, ranked;
      names, ranked, perm := SortByScore(films, scores);
      var medals := if |names| < PodiumPlaces then |names| else PodiumPlaces;
      return Podium(names, ranked, medals), perm;
    }

    /**
     * `guardar_ficheiro`: with an empty roster nothing is written; otherwise
     * the header and then one record per entry, in roster order.
     */
    method Save(show: real -> string) returns (result: SaveResult)
      requires Valid()
      ensures films == [] ==> result == NothingToSave
      ensures films != [] ==> result == Saved(SavedFile(films, scores, show))
    {
      if films == [] {
        return NothingToSave;
      }
      var rows := WriteRecords(films, scores, show);
      return Saved(rows);
    }

    /**
     * `carregar_ficheiro`: a missing file changes nothing. Otherwise the lists
     * are emptied and refilled from the records after the header, as
     * `LoadFile` describes; when a kept record's score does not convert, both
     * lists end empty.
     */
    method Load(fileExists: bool, rows: seq<seq<string>>, parse: string -> Option<real>) returns (result: LoadResult)
      requires Valid()
      modifies this
      ensures Valid()
      ensures !fileExists ==> result == NotFound && films == old(films) && scores == old(scores)
      ensures fileExists && LoadFile(rows, parse).Some? ==>
        && films == LoadFile(rows, parse).value.names && scores == LoadFile(rows, parse).value.scores
        && result == Loaded(|films|)
      ensures fileExists && LoadFile(rows, parse).None? ==> films == [] && scores == [] && result == LoadFailed
    {
      if !fileExists {
        return NotFound;
      }
      var table := ReadRecords(rows, parse);
      if table.None? {
        films, scores := [], [];
        return LoadFailed;
      }
      LoadFileNames(rows, parse);
      films, scores := table.value.names, table.value.scores;
      return Loaded(|films|);
    }
  }
}
