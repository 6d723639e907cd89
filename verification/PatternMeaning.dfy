/** What a pattern means, message by message and without any cache, and when the compiled formatter says the same. */
module PatternMeaning {
  import opened Options
  import opened LogFields
  import opened Patterns

  /** A flag with its padding, shown at once. An unknown one after a truncating width also means the function name. */
  function FlagMeaning(flag: char, p: Padding, env: Env, msg: Message, t: Calendar, out: Output): Option<Output> {
    if flag == '+' then Some(FullOutput(out, DateText(t), msg))
    else if flag == '^' then Some(out.(from := |out.text|))
    else if flag == '$' then Some(out.(until := |out.text|))
    else if flag == '%' then Some(Append(out, "%"))
    else if IsPaddedFlag(flag) then WithField(out, p, FieldOf(flag, env, msg, t))
    else if !p.truncate then Some(Append(out, ['%', flag]))
    else
      match WithField(out, p.(truncate := false), SourceField('!', msg.source))
      case None => None
      case Some(o) => Some(Append(o, [flag]))
  }

  /** Interprets a pattern character by character. */
  function Meaning(pattern: string, env: Env, msg: Message, t: Calendar, out: Output): Option<Output> {
    if pattern == "" then Some(out)
    else if pattern[0] != '%' then Meaning(pattern[1..], env, msg, t, Append(out, [pattern[0]]))
    else
      var (padding, n) := PadSpec(pattern[1..]);
      var rest := pattern[1 + n..];
      if rest == "" then Some(out)
      else
        match FlagMeaning(rest[0], padding, env, msg, t, out)
        case None => None
        case Some(next) => Meaning(rest[1..], env, msg, t, next)
  }

  const NOTHING: Output := Output("", 0, 0)

  /** The uncached formatter. */
  function Direct(pattern: string, env: Env, msg: Message): Option<Output> {
    Ended(Meaning(pattern, env, msg, env.timeOf(msg.secs), NOTHING), env.eol)
  }

  function Plain(piece: Piece): Piece {
    if piece.Full? then Full(EMPTY_CACHE) else piece
  }

  /** The same pieces, but for what their caches hold. */
  predicate SamePieces(a: seq<Piece>, b: seq<Piece>) {
    |a| == |b| && forall k :: 0 <= k < |a| ==> Plain(a[k]) == Plain(b[k])
  }

  predicate CacheRight(p: Piece, env: Env) {
    p.Full? ==> p.cache.text == "" || p.cache.text == DateText(env.timeOf(p.cache.secs))
  }

  /** Every cache is empty or right for its second. */
  predicate CachesRight(pieces: seq<Piece>, env: Env) {
    forall k :: 0 <= k < |pieces| ==> CacheRight(pieces[k], env)
  }

  predicate Cacheless(pieces: seq<Piece>) {
    forall k :: 0 <= k < |pieces| && pieces[k].Full? ==> pieces[k].cache.text == ""
  }

  /** Pieces as compiling makes them. */
  predicate New(pieces: seq<Piece>) {
    WellFormed(pieces) && Cacheless(pieces)
  }

  lemma NewTogether(a: seq<Piece>, b: seq<Piece>)
    requires New(a) && New(b)
    ensures New(a + b)
  {
  }

  lemma PartIsNew(chars: string, flag: char, p: Padding, rest: seq<Piece>)
    requires New(rest)
    ensures New(Flush(chars) + (Handled(flag, p) + rest))
  {
    NewTogether(Handled(flag, p), rest);
    NewTogether(Flush(chars), Handled(flag, p) + rest);
  }

  lemma {:induction false} CompiledIsNew(pattern: string, chars: string)
    ensures New(Compiled(pattern, chars))
    decreases |pattern|
  {
    if pattern != "" {
      if pattern[0] != '%' {
        CompiledIsNew(pattern[1..], chars + [pattern[0]]);
      } else {
        var rest := pattern[1 + PadSpec(pattern[1..]).1..];
        if rest != "" {
          CompiledIsNew(rest[1..], "");
          PartIsNew(chars, rest[0], PadSpec(pattern[1..]).0, Compiled(rest[1..], ""));
        }
      }
    }
  }

  /** Showing a sequence in two parts. */
  lemma {:induction false} ShowAllSplit(a: seq<Piece>, b: seq<Piece>, env: Env, msg: Message, t: Calendar, out: Output)
    requires WellFormed(a) && WellFormed(b) && WellFormed(a + b)
    ensures var first := ShowAll(a, env, msg, t, out).1;
            ShowAll(a + b, env, msg, t, out).1 == if first.None? then None else ShowAll(b, env, msg, t, first.value).1
  {
    if a == [] {
      assert a + b == b;
    } else {
      assert (a + b)[1..] == a[1..] + b;
      var next := ShowPiece(a[0], env, msg, t, out).1;
      if next.Some? {
        ShowAllSplit(a[1..], b, env, msg, t, next.value);
      }
    }
  }

  lemma FlushMeaning(chars: string, env: Env, msg: Message, t: Calendar, out: Output)
    ensures ShowAll(Flush(chars), env, msg, t, out).1 == Some(Append(out, chars))
  {
    if chars == "" {
      assert out.text + chars == out.text;
    } else {
      ShowOne(Chars(chars), env, msg, t, out);
    }
  }

  lemma ShowOne(piece: Piece, env: Env, msg: Message, t: Calendar, out: Output)
    requires piece.Flag? ==> IsPaddedFlag(piece.flag)
    ensures ShowAll([piece], env, msg, t, out).1 == ShowPiece(piece, env, msg, t, out).1
  {
  }

  lemma FunctionNameField(env: Env, msg: Message, t: Calendar)
    ensures FieldOf('!', env, msg, t) == SourceField('!', msg.source)
  {
  }

  lemma TwoPiecesMeaning(flag: char, p: Padding, env: Env, msg: Message, t: Calendar, out: Output)
    requires flag !in "+%^$" && !IsPaddedFlag(flag) && p.truncate
    ensures ShowAll(Handled(flag, p), env, msg, t, out).1 == FlagMeaning(flag, p, env, msg, t, out)
  {
    var a, b := Flag('!', p.(truncate := false)), Chars([flag]);
    assert Handled(flag, p) == [a] + [b];
    ShowAllSplit([a], [b], env, msg, t, out);
    ShowOne(a, env, msg, t, out);
    FunctionNameField(env, msg, t);
    var next := ShowPiece(a, env, msg, t, out).1;
    if next.Some? {
      ShowOne(b, env, msg, t, next.value);
    }
  }

  lemma HandledMeaning(flag: char, p: Padding, env: Env, msg: Message, t: Calendar, out: Output)
    ensures WellFormed(Handled(flag, p))
    ensures ShowAll(Handled(flag, p), env, msg, t, out).1 == FlagMeaning(flag, p, env, msg, t, out)
  {
    if flag !in "+%^$" && !IsPaddedFlag(flag) && p.truncate {
      TwoPiecesMeaning(flag, p, env, msg, t, out);
    } else {
      var piece := Handled(flag, p)[0];
      assert Handled(flag, p) == [piece];
      ShowOne(piece, env, msg, t, out);
    }
  }

  /** Compiling preserves meaning: for every pattern, message and time. */
  lemma {:induction false} CompiledMeansPattern(
    pattern: string, chars: string, env: Env, msg: Message, t: Calendar, out: Output)
    ensures WellFormed(Compiled(pattern, chars))
    ensures ShowAll(Compiled(pattern, chars), env, msg, t, out).1 == Meaning(pattern, env, msg, t, Append(out, chars))
    decreases |pattern|
  {
    CompiledIsNew(pattern, chars);
    if pattern == "" {
      FlushMeaning(chars, env, msg, t, out);
    } else if pattern[0] != '%' {
      CompiledMeansPattern(pattern[1..], chars + [pattern[0]], env, msg, t, out);
      assert out.text + (chars + [pattern[0]]) == out.text + chars + [pattern[0]];
    } else {
      var (padding, n) := PadSpec(pattern[1..]);
      var rest := pattern[1 + n..];
      FlushMeaning(chars, env, msg, t, out);
      if rest == "" {
        assert Compiled(pattern, chars) == Flush(chars);
      } else {
        FlagThenRest(rest[0], padding, rest[1..], Flush(chars), env, msg, t, out, Append(out, chars));
        var next := FlagMeaning(rest[0], padding, env, msg, t, Append(out, chars));
        if next.Some? {
          CompiledMeansPattern(rest[1..], "", env, msg, t, next.value);
          assert Append(next.value, "") == next.value;
        }
      }
    }
  }

  lemma FlagThenRest(
    flag: char, p: Padding, rest: string, before: seq<Piece>, env: Env, msg: Message, t: Calendar, out: Output,
    mid: Output)
    requires WellFormed(before) && ShowAll(before, env, msg, t, out).1 == Some(mid)
    ensures WellFormed(before + (Handled(flag, p) + Compiled(rest, ""))) && WellFormed(Compiled(rest, ""))
    ensures var next := FlagMeaning(flag, p, env, msg, t, mid);
            ShowAll(before + (Handled(flag, p) + Compiled(rest, "")), env, msg, t, out).1
            == if next.None? then None else ShowAll(Compiled(rest, ""), env, msg, t, next.value).1
  {
    CompiledIsNew(rest, "");
    HandledMeaning(flag, p, env, msg, t, mid);
    ShowAllSplit(before, Handled(flag, p) + Compiled(rest, ""), env, msg, t, out);
    ShowAllSplit(Handled(flag, p), Compiled(rest, ""), env, msg, t, mid);
  }

  /** One piece with a right cache, and the same piece without. */
  lemma CacheIsInvisible(p: Piece, q: Piece, env: Env, msg: Message, out: Output)
    requires (p.Flag? ==> IsPaddedFlag(p.flag)) && (q.Flag? ==> IsPaddedFlag(q.flag)) && Plain(p) == Plain(q)
    requires CacheRight(p, env) && (q.Full? ==> q.cache.text == "")
    ensures var t := env.timeOf(msg.secs);
            && ShowPiece(p, env, msg, t, out).1 == ShowPiece(q, env, msg, t, out).1
            && Plain(ShowPiece(p, env, msg, t, out).0) == Plain(q)
            && CacheRight(ShowPiece(p, env, msg, t, out).0, env)
  {
    if !p.Full? {
      assert p == Plain(p) == Plain(q) == q;
    }
  }

  /** Showing the first piece, then the rest. */
  lemma ShowAllUnfolds(a: seq<Piece>, env: Env, msg: Message, t: Calendar, out: Output)
    requires a != [] && WellFormed(a)
    ensures WellFormed(a[1..])
    ensures var (p, next) := ShowPiece(a[0], env, msg, t, out);
            ShowAll(a, env, msg, t, out) ==
              if next.None? then ([p] + a[1..], None)
              else ([p] + ShowAll(a[1..], env, msg, t, next.value).0, ShowAll(a[1..], env, msg, t, next.value).1)
  {
  }

  lemma JoinedRight(p: Piece, rest: seq<Piece>, b: seq<Piece>, env: Env)
    requires b != [] && Plain(p) == Plain(b[0]) && CacheRight(p, env)
    requires SamePieces(rest, b[1..]) && CachesRight(rest, env)
    ensures SamePieces([p] + rest, b) && CachesRight([p] + rest, env)
  {
    assert b == [b[0]] + b[1..];
  }

  /** One message through pieces with right caches: what pieces without caches would show, and the caches stay right. */
  lemma {:induction false} CachesAreInvisible(a: seq<Piece>, b: seq<Piece>, env: Env, msg: Message, out: Output)
    requires WellFormed(a) && WellFormed(b) && SamePieces(a, b) && CachesRight(a, env) && Cacheless(b)
    ensures var t := env.timeOf(msg.secs);
            && ShowAll(a, env, msg, t, out).1 == ShowAll(b, env, msg, t, out).1
            && SamePieces(ShowAll(a, env, msg, t, out).0, b)
            && CachesRight(ShowAll(a, env, msg, t, out).0, env)
  {
    if a != [] {
      var t := env.timeOf(msg.secs);
      var (p, next) := ShowPiece(a[0], env, msg, t, out);
      ShowAllUnfolds(a, env, msg, t, out);
      ShowAllUnfolds(b, env, msg, t, out);
      CacheIsInvisible(a[0], b[0], env, msg, out);
      if next.Some? {
        CachesAreInvisible(a[1..], b[1..], env, msg, next.value);
        JoinedRight(p, ShowAll(a[1..], env, msg, t, next.value).0, b, env);
      } else {
        JoinedRight(p, a[1..], b, env);
      }
    }
  }

  /** The formatter stands between two messages with everything right for the second of the last one. */
  predicate Right(state: State, pattern: string, env: Env) {
    && WellFormed(state.pieces) && SamePieces(state.pieces, Compiled(pattern, "")) && CachesRight(state.pieces, env)
    && state.time == env.timeOf(state.secs)
  }

  lemma FormattedIsDirect(state: State, pattern: string, env: Env, msg: Message)
    requires Right(state.(time := env.timeOf(state.secs)), pattern, env)
    requires state.time == env.timeOf(state.secs) || msg.secs != state.secs
    ensures Formatted(state, env, msg, NOTHING).1 == Direct(pattern, env, msg)
    ensures Right(Formatted(state, env, msg, NOTHING).0, pattern, env)
  {
    var compiled := Compiled(pattern, "");
    CompiledMeansPattern(pattern, "", env, msg, env.timeOf(msg.secs), NOTHING);
    CompiledIsNew(pattern, "");
    CachesAreInvisible(state.pieces, compiled, env, msg, NOTHING);
    assert Append(NOTHING, "") == NOTHING;
  }

  function Outputs(state: State, env: Env, msgs: seq<Message>): seq<Option<Output>>
    requires WellFormed(state.pieces)
    decreases |msgs|
  {
    if msgs == [] then []
    else
      var (next, out) := Formatted(state, env, msgs[0], NOTHING);
      [out] + Outputs(next, env, msgs[1..])
  }

  function Directs(pattern: string, env: Env, msgs: seq<Message>): seq<Option<Output>> {
    if msgs == [] then [] else [Direct(pattern, env, msgs[0])] + Directs(pattern, env, msgs[1..])
  }

  lemma {:induction false} RunFromRight(state: State, pattern: string, env: Env, msgs: seq<Message>)
    requires Right(state.(time := env.timeOf(state.secs)), pattern, env)
    requires state.time == env.timeOf(state.secs) || msgs == [] || msgs[0].secs != state.secs
    ensures Outputs(state, env, msgs) == Directs(pattern, env, msgs)
    decreases |msgs|
  {
    if msgs != [] {
      FormattedIsDirect(state, pattern, env, msgs[0]);
      RunFromRight(Formatted(state, env, msgs[0], NOTHING).0, pattern, env, msgs[1..]);
    }
  }

  /** What a new formatter writes for the messages. */
  function Run(pattern: string, env: Env, msgs: seq<Message>): seq<Option<Output>> {
    CompiledIsNew(pattern, "");
    Outputs(Start(pattern), env, msgs)
  }

  /**
   * Over every run whose first message is not of second 0, or where second 0 is the time of a formatter that was
   * never used: the compiled and cached formatter is the direct interpreter.
   */
  lemma RunMeansPattern(pattern: string, env: Env, msgs: seq<Message>)
    requires msgs == [] || msgs[0].secs != 0 || env.timeOf(0) == ZERO_TIME
    ensures Run(pattern, env, msgs) == Directs(pattern, env, msgs)
  {
    CompiledIsNew(pattern, "");
    RunFromRight(Start(pattern), pattern, env, msgs);
  }

  /** A first message of second 0 is shown with the zero time, whatever the calendar says. */
  lemma FirstSecondZero(pattern: string, env: Env, msg: Message)
    requires msg.secs == 0
    ensures New(Start(pattern).pieces)
    ensures Formatted(Start(pattern), env, msg, NOTHING).1
         == Ended(Meaning(pattern, env, msg, ZERO_TIME, NOTHING), env.eol)
  {
    CompiledIsNew(pattern, "");
    CompiledMeansPattern(pattern, "", env, msg, ZERO_TIME, NOTHING);
    assert Append(NOTHING, "") == NOTHING;
  }
}
