/**
 * The prompt-and-retry loops of the roster manager. The console is modelled
 * as the sequence of lines the user types during one operation; a read at
 * position `at` consumes `input[at]`. Running out of lines is where Python's
 * `input()` would raise `EOFError`.
 */
module Console {
  import opened Wrappers
  import opened Text
  import opened Validation

  /** Manual entry always asks for this many films. */
  const RosterSize: nat := 10

  /** A name as the roster stores it: not empty, and already stripped. */
  predicate FilmName(s: string) {
    s != [] && Trimmed(s)
  }

  /** Every name in the list is non-empty and already stripped. */
  predicate AllFilmNames(names: seq<string>) {
    forall i :: 0 <= i < |names| ==> FilmName(names[i])
  }

  /** A line that the score prompt accepts: it converts, and the number is in range. */
  predicate AcceptsScore(parse: string -> Option<real>, line: string) {
    parse(line).Some? && ValidScore(parse(line).value)
  }

  /** No line in `input[from..to]` is an accepted score. */
  predicate NoneAccepted(input: seq<string>, parse: string -> Option<real>, from: nat, to: nat)
    requires to <= |input|
  {
    forall k :: from <= k < to ==> !AcceptsScore(parse, input[k])
  }

  /**
   * The score prompt from position `at`: the position of the first line that
   * converts to a number in [0, 20], skipping the others; None when no
   * remaining line does.
   */
  function NextScore(input: seq<string>, parse: string -> Option<real>, at: nat): (r: Option<nat>)
    decreases |input| - at
    ensures r.None? <==> at >= |input| || NoneAccepted(input, parse, at, |input|)
    ensures r.Some? ==>
      at <= r.value < |input| && AcceptsScore(parse, input[r.value]) && NoneAccepted(input, parse, at, r.value)
  {
    if at >= |input| then None
    else if AcceptsScore(parse, input[at]) then Some(at)
    else NextScore(input, parse, at + 1)
  }

  /**
   * The `while True` loop that reads a score (oscares.py, in
   * `introducao_dados` and in `alterar_dados`): the accepted number and the
   * position of the line it came from.
   */
  method ReadScore(input: seq<string>, parse: string -> Option<real>, at: nat) returns (r: Option<(real, nat)>)
    ensures NextScore(input, parse, at).None? ==> r.None?
    ensures NextScore(input, parse, at).Some? ==>
      r == Some((parse(input[NextScore(input, parse, at).value]).value, NextScore(input, parse, at).value))
  {
    var p := at;
    while p < |input|
      invariant at <= p
      invariant NextScore(input, parse, p) == NextScore(input, parse, at)
      decreases |input| - p
    {
      var score := parse(input[p]);
      if score.Some? && ValidScore(score.value) {
        return Some((score.value, p));
      }
      p := p + 1;
    }
    return None;
  }

  /** What the manual-entry dialogue has collected, and whether it finished. */
  datatype Entries = Entries(names: seq<string>, scores: seq<real>, complete: bool)

  /**
   * The manual-entry dialogue, one console line at a time, from line `at`:
   * `names` and `scores` are the films registered so far, `pending` the name
   * already read for the film whose score is being asked for. A blank name
   * line and a rejected score line are asked again; after `RosterSize` films
   * the dialogue is complete, and if the lines run out first it stops with the
   * films registered so far.
   */
  function EntryDialogue(input: seq<string>, parse: string -> Option<real>, at: nat,
                         pending: Option<string>, names: seq<string>, scores: seq<real>): Entries
    decreases |input| - at
  {
    if pending.None? && |names| >= RosterSize then Entries(names, scores, true)
    else if at >= |input| then Entries(names, scores, false)
    else if pending.None? then
      if Blank(input[at]) then EntryDialogue(input, parse, at + 1, None, names, scores)
      else EntryDialogue(input, parse, at + 1, Some(Strip(input[at])), names, scores)
    else if AcceptsScore(parse, input[at]) then
      EntryDialogue(input, parse, at + 1, None, names + [pending.value], scores + [parse(input[at]).value])
    else EntryDialogue(input, parse, at + 1, pending, names, scores)
  }

  /** Every line in `input[from..to]` is blank. */
  predicate BlankLines(input: seq<string>, from: nat, to: nat)
    requires to <= |input|
  {
    forall k :: from <= k < to ==> Blank(input[k])
  }

  /**
   * The `while not filme` loop of `introducao_dados`: blank lines are asked
   * again; the first other line, stripped, is the name, and `next` is the
   * line after it. None when the lines run out first, where the dialogue
   * stops.
   */
  method ReadFilmName(input: seq<string>, parse: string -> Option<real>, at: nat,
                      ghost names: seq<string>, ghost scores: seq<real>) returns (name: Option<string>, next: nat)
    requires at <= |input| && |names| < RosterSize
    ensures next <= |input|
    ensures name.None? ==> BlankLines(input, at, |input|)
    ensures name.None? ==> EntryDialogue(input, parse, at, None, names, scores) == Entries(names, scores, false)
    ensures name.Some? ==>
      && at < next && name.value == Strip(input[next - 1]) && FilmName(name.value)
      && BlankLines(input, at, next - 1)
      && EntryDialogue(input, parse, at, None, names, scores) == EntryDialogue(input, parse, next, name, names, scores)
  {
    next := at;
    while next < |input| && Blank(input[next])
      invariant at <= next <= |input|
      invariant BlankLines(input, at, next)
      invariant EntryDialogue(input, parse, at, None, names, scores) == EntryDialogue(input, parse, next, None, names, scores)
      decreases |input| - next
    {
      next := next + 1;
    }
    if next == |input| {
      return None, next;
    }
    name := Some(Strip(input[next]));
    next := next + 1;
  }

  /**
   * While a name waits for its score, the dialogue skips to the first
   * accepted score line and registers the film there; without one it stops.
   */
  lemma {:induction false} AwaitingScore(input: seq<string>, parse: string -> Option<real>, at: nat,
                                         name: string, names: seq<string>, scores: seq<real>)
    decreases |input| - at
    ensures NextScore(input, parse, at).None? ==>
      EntryDialogue(input, parse, at, Some(name), names, scores) == Entries(names, scores, false)
    ensures NextScore(input, parse, at).Some? ==>
      var k := NextScore(input, parse, at).value;
      EntryDialogue(input, parse, at, Some(name), names, scores)
        == EntryDialogue(input, parse, k + 1, None, names + [name], scores + [parse(input[k]).value])
  {
    if at < |input| && !AcceptsScore(parse, input[at]) {
      AwaitingScore(input, parse, at + 1, name, names, scores);
    }
  }

  /** `introducao_dados` from an empty roster, over the whole input. */
  function EnterFilms(input: seq<string>, parse: string -> Option<real>): Entries {
    EntryDialogue(input, parse, 0, None, [], [])
  }

  /**
   * The loop of `introducao_dados`: up to `RosterSize` times a name and then
   * a score are read; `complete` is false when the lines ran out first, and
   * the films registered until then are kept.
   */
  method ReadFilms(input: seq<string>, parse: string -> Option<real>)
    returns (names: seq<string>, scores: seq<real>, complete: bool)
    ensures Entries(names, scores, complete) == EnterFilms(input, parse)
  {
    ghost var final := EnterFilms(input, parse);
    names, scores := [], [];
    var at: nat := 0;
    complete := true;
    while complete && |names| < RosterSize
      invariant at <= |input|
      invariant complete ==> EntryDialogue(input, parse, at, None, names, scores) == final
      invariant !complete ==> final == Entries(names, scores, false)
      decreases RosterSize - |names|, if complete then 1 else 0
    {
      var name;
      name, at := ReadFilmName(input, parse, at, names, scores);
      if name.None? {
        complete := false;
      } else {
        AwaitingScore(input, parse, at, name.value, names, scores);
        var score := ReadScore(input, parse, at);
        if score.None? {
          complete := false;
        } else {
          names := names + [name.value];
          scores := scores + [score.value.0];
          at := score.value.1 + 1;
        }
      }
    }
  }

  /** The films collected so far are well formed, and no more than `RosterSize`. */
  predicate Collected(pending: Option<string>, names: seq<string>, scores: seq<real>) {
    && |names| == |scores| <= RosterSize
    && (forall i :: 0 <= i < |names| ==> FilmName(names[i]))
    && (forall i :: 0 <= i < |scores| ==> ValidScore(scores[i]))
    && (pending.Some? ==> FilmName(pending.value) && |names| < RosterSize)
  }

  /**
   * The dialogue only ever appends well-formed films to what it has, stops
   * at `RosterSize`, and is complete exactly when it has `RosterSize` films.
   */
  lemma {:induction false} DialogueCollects(input: seq<string>, parse: string -> Option<real>, at: nat,
                                            pending: Option<string>, names: seq<string>, scores: seq<real>)
    requires Collected(pending, names, scores)
    decreases |input| - at
    ensures var e := EntryDialogue(input, parse, at, pending, names, scores);
      && Collected(None, e.names, e.scores)
      && |names| <= |e.names| && e.names[..|names|] == names && e.scores[..|scores|] == scores
      && (e.complete <==> |e.names| == RosterSize)
  {
    if pending.None? && |names| >= RosterSize {
    } else if at >= |input| {
    } else if pending.None? {
      if Blank(input[at]) {
        DialogueCollects(input, parse, at + 1, None, names, scores);
      } else {
        DialogueCollects(input, parse, at + 1, Some(Strip(input[at])), names, scores);
      }
    } else if AcceptsScore(parse, input[at]) {
      var names', scores' := names + [pending.value], scores + [parse(input[at]).value];
      DialogueCollects(input, parse, at + 1, None, names', scores');
      var e := EntryDialogue(input, parse, at + 1, None, names', scores');
      assert e.names[..|names|] == e.names[..|names'|][..|names|];
      assert e.scores[..|scores|] == e.scores[..|scores'|][..|scores|];
    } else {
      DialogueCollects(input, parse, at + 1, pending, names, scores);
    }
  }

  /**
   * Manual entry yields at most `RosterSize` films, exactly `RosterSize` when
   * it completes, each with a non-empty stripped name and a score in [0, 20].
   */
  lemma EnteredFilmsAreValid(input: seq<string>, parse: string -> Option<real>)
    ensures var e := EnterFilms(input, parse);
      && |e.names| == |e.scores| <= RosterSize
      && (e.complete <==> |e.names| == RosterSize)
      && (forall i :: 0 <= i < |e.names| ==> FilmName(e.names[i]))
      && (forall i :: 0 <= i < |e.scores| ==> ValidScore(e.scores[i]))
  {
    DialogueCollects(input, parse, 0, None, [], []);
  }
}
