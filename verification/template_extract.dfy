/**
 * The Babel extractor for translatable strings in Django templates: a
 * state machine driven by the template lexer's tokens. It tracks whether
 * it is inside a `{% blocktrans %}` block (and in its plural part),
 * collects the pieces of the singular and plural messages, and emits
 * `(lineno, funcname, message, comments)` records.
 *
 * The lexer and the translation regexes are library code: a token here
 * already carries what those regexes captured from it. `trim_whitespace`
 * is library code too and is passed in as an arbitrary function.
 */
module TemplateExtract {
  import opened Wrappers
  import opened PyStrings

  /** The exceptions the extractor lets escape. */
  datatype ExtractError =
    | IndexError                      // `strip_quotes` of an empty string
    | SyntaxError(contents: string)   // a foreign tag inside a trans block

  /** What `inline_re` captured from a `{% trans ... %}` tag. */
  datatype InlineMatch = InlineMatch(message: string, context: Option<string>)

  /**
   * A block tag's contents and what each translation regex makes of them:
   * `endblock_re` and `plural_re` match or not, `inline_re` and `block_re`
   * (its context group) may match, `constant_re.findall` gives the quoted
   * constants of `_("...")` calls, and `words` is `split_contents()`.
   */
  datatype BlockTag = BlockTag(
    contents: string,
    isEnd: bool,
    isPlural: bool,
    inline: Option<InlineMatch>,
    blockOpen: Option<Option<string>>,
    constants: seq<string>,
    words: seq<string>)

  /**
   * A lexer token. A variable token also carries group 1 of
   * `constant_re.match` on the text before its first `|`, if it matched.
   */
  datatype Token =
    | Text(contents: string)
    | Var(contents: string, constant: Option<string>)
    | Block(tag: BlockTag)
    | Comment(contents: string)
  {
    function Contents(): string {
      match this
      case Text(c) => c
      case Var(c, _) => c
      case Block(tag) => tag.contents
      case Comment(c) => c
    }
  }

  /** One extracted record; `strings` holds the message argument(s), comments are always empty. */
  datatype Message = Message(lineno: int, funcname: Option<string>, strings: seq<string>)

  /** The extractor's local variables between two tokens. */
  datatype State = State(
    intrans: bool,
    inplural: bool,
    trimmed: bool,
    context: Option<string>,
    singular: seq<string>,
    plural: seq<string>,
    lineno: int)

  const Start: State := State(false, false, false, None, [], [], 1)

  /** Python truthiness of an optional string. */
  predicate Truthy(s: Option<string>) {
    s.Some? && |s.value| > 0
  }

  /**
   * `''.join(tokens)`, then `trim_whitespace` when `trimmed`. Untrimmed,
   * the message is exactly the tokens laid end to end: its length is their
   * summed length, and each token is the slice after the tokens before it.
   */
  function JoinTokens(tokens: seq<string>, trimmed: bool, trim: string -> string): (m: string)
    ensures trimmed ==> m == trim(Concat(tokens))
    ensures !trimmed ==> m == Concat(tokens)
    ensures !trimmed ==> |m| == TotalLength(tokens)
    ensures !trimmed ==> forall i :: 0 <= i < |tokens| ==>
      var at := TotalLength(tokens[..i]);
      at + |tokens[i]| <= |m| && m[at..at + |tokens[i]|] == tokens[i]
  {
    var message := Concat(tokens);
    forall i | 0 <= i < |tokens|
      ensures var at := TotalLength(tokens[..i]);
        at + |tokens[i]| <= |message| && message[at..at + |tokens[i]|] == tokens[i]
    {
      ConcatSlice(tokens, i);
    }
    if trimmed then trim(message) else message
  }

  /**
   * `strip_quotes`: a string whose first and last characters are equal and
   * which starts with a quote loses its first and last characters; Python's
   * `s[0]` raises on the empty string.
   */
  function StripQuotes(s: string): (r: Result<string, ExtractError>)
    ensures |s| == 0 <==> r.Err?
    ensures |s| >= 2 && s[0] == s[|s| - 1] && s[0] in {'\'', '"'} ==>
      r == Ok(s[1..|s| - 1])
    ensures |s| == 1 && s[0] in {'\'', '"'} ==> r == Ok("")
    ensures |s| > 0 && (s[0] != s[|s| - 1] || s[0] !in {'\'', '"'}) ==> r == Ok(s)
  {
    if |s| == 0 then Err(IndexError)
    else if s[0] == s[|s| - 1] && (StartsWith(s, "'") || StartsWith(s, "\"")) then Ok(Inner(s))
    else Ok(s)
  }

  /** A variable token's text as it appears inside a message: `%(name)s`. */
  function Placeholder(name: string): string {
    "%(" + name + ")s"
  }

  /** The message emitted at the end of a trans block. */
  function EndMessage(st: State, trim: string -> string): (m: Message)
    ensures m.lineno == st.lineno
    ensures m.funcname ==
      if st.inplural && Truthy(st.context) then Some("npgettext")
      else if st.inplural then Some("ngettext")
      else if Truthy(st.context) then Some("pgettext")
      else None
    ensures m.strings ==
      (if Truthy(st.context) then [st.context.value] else [])
      + [JoinTokens(st.singular, st.trimmed, trim)]
      + (if st.inplural then [JoinTokens(st.plural, st.trimmed, trim)] else [])
  {
    var sing := JoinTokens(st.singular, st.trimmed, trim);
    if st.inplural then
      var plu := JoinTokens(st.plural, st.trimmed, trim);
      if Truthy(st.context) then Message(st.lineno, Some("npgettext"), [st.context.value, sing, plu])
      else Message(st.lineno, Some("ngettext"), [sing, plu])
    else if Truthy(st.context) then Message(st.lineno, Some("pgettext"), [st.context.value, sing])
    else Message(st.lineno, None, [sing])
  }

  /** What one token does: the next state, the records yielded, and the exception raised, if any. */
  datatype Effect = Effect(state: State, messages: seq<Message>, error: Option<ExtractError>)

  /**
   * `ms` are the records yielded for the first `|ms|` quoted constants of
   * `strs`: one each, in order, at `lineno`, with no function name and the
   * constant without its quotes.
   */
  predicate Unquoted(ms: seq<Message>, strs: seq<string>, lineno: int) {
    && |ms| <= |strs|
    && forall i :: 0 <= i < |ms| ==>
      |strs[i]| > 0 && ms[i] == Message(lineno, None, [StripQuotes(strs[i]).value])
  }

  /** No string of the list is empty, so `strip_quotes` raises on none of them. */
  predicate AllNonEmpty(strs: seq<string>) {
    forall i :: 0 <= i < |strs| ==> |strs[i]| > 0
  }

  /**
   * Plain messages (no function name) for a list of quoted constants: one
   * per constant up to the first empty one, where `strip_quotes` raises.
   */
  function ConstantMessages(consts: seq<string>, lineno: int): (e: (seq<Message>, Option<ExtractError>))
    ensures Unquoted(e.0, consts, lineno)
    ensures e.1.None? <==> AllNonEmpty(consts)
    ensures e.1.None? ==> |e.0| == |consts|
    ensures e.1.Some? ==> e.1 == Some(IndexError) && |e.0| < |consts| && |consts[|e.0|]| == 0
  {
    if |consts| == 0 then ([], None)
    else match StripQuotes(consts[0])
      case Err(err) => ([], Some(err))
      case Ok(m) =>
        var rest := ConstantMessages(consts[1..], lineno);
        ([Message(lineno, None, [m])] + rest.0, rest.1)
  }

  /** Appends a piece to the singular or, after the plural tag, the plural buffer. */
  function Append(st: State, piece: string): State {
    if st.inplural then st.(plural := st.plural + [piece])
    else st.(singular := st.singular + [piece])
  }

  /** A token seen inside a trans block (`lineno` already advanced). */
  function InTrans(st: State, t: Token, trim: string -> string): (e: Effect)
    requires st.intrans
    ensures t.Block? && !t.tag.isEnd && !t.tag.isPlural ==>
      e.error == Some(SyntaxError(t.tag.contents)) && e.messages == []
    ensures t.Block? && t.tag.isEnd ==>
      e.error.None? && e.messages == [EndMessage(st, trim)]
      && !e.state.intrans && !e.state.inplural && e.state.context.None?
      && e.state.singular == [] && e.state.plural == []
    ensures t.Block? && !t.tag.isEnd && t.tag.isPlural ==>
      e.error.None? && e.messages == [] && e.state == st.(inplural := true)
    ensures t.Text? && !st.inplural ==>
      e == Effect(st.(singular := st.singular + [t.contents]), [], None)
    ensures t.Text? && st.inplural ==>
      e == Effect(st.(plural := st.plural + [t.contents]), [], None)
    ensures t.Var? && !st.inplural ==>
      e == Effect(st.(singular := st.singular + [Placeholder(t.contents)]), [], None)
    ensures t.Var? && st.inplural ==>
      e == Effect(st.(plural := st.plural + [Placeholder(t.contents)]), [], None)
    ensures t.Comment? ==> e == Effect(st, [], None)
    ensures e.state.lineno == st.lineno
  {
    match t
    case Block(tag) =>
      if tag.isEnd then
        var reset := st.(intrans := false, inplural := false, context := None, singular := [], plural := []);
        Effect(reset, [EndMessage(st, trim)], None)
      else if tag.isPlural then Effect(st.(inplural := true), [], None)
      else Effect(st, [], Some(SyntaxError(tag.contents)))
    case Var(name, _) => Effect(Append(st, Placeholder(name)), [], None)
    case Text(text) => Effect(Append(st, text), [], None)
    case Comment(_) => Effect(st, [], None)
  }

  /** An inline `{% trans %}` tag outside a block. */
  function InlineTrans(st: State, m: InlineMatch): (e: Effect)
    requires !st.intrans
    ensures e.error.Some? <==> |m.message| == 0
    ensures e.error.None? ==> |e.messages| == 1 && e.messages[0].lineno == st.lineno
    ensures e.error.None? && Truthy(m.context) ==>
      e.messages[0].funcname == Some("pgettext")
      && e.messages[0].strings == [Inner(m.context.value), StripQuotes(m.message).value]
    ensures e.error.None? && !Truthy(m.context) ==>
      e.messages[0].funcname.None? && e.messages[0].strings == [StripQuotes(m.message).value]
    ensures e.error.None? ==> !Truthy(e.state.context) && !e.state.intrans
  {
    match StripQuotes(m.message)
    case Err(err) => Effect(st, [], Some(err))
    case Ok(g) =>
      if Truthy(m.context) then
        Effect(st.(context := None), [Message(st.lineno, Some("pgettext"), [Inner(m.context.value), g])], None)
      else
        Effect(st.(context := m.context), [Message(st.lineno, None, [g])], None)
  }

  /** An opening `{% blocktrans %}` tag: its context, its constants, then the block state. */
  function OpenBlock(st: State, tag: BlockTag, ctxGroup: Option<string>): (e: Effect)
    ensures e.error.None? ==>
      && e.state.intrans && !e.state.inplural
      && e.state.singular == [] && e.state.plural == []
      && (e.state.trimmed <==> "trimmed" in tag.words)
      && |e.messages| == |tag.constants|
    ensures Unquoted(e.messages, tag.constants, st.lineno)
    ensures e.error.None? <==> AllNonEmpty(tag.constants)
    ensures e.error.Some? ==> e.error == Some(IndexError)
    ensures e.error.None? && Truthy(ctxGroup) ==> e.state.context == Some(Inner(ctxGroup.value))
    ensures e.error.None? && !Truthy(ctxGroup) ==> e.state.context == st.context
    ensures e.state.lineno == st.lineno
  {
    var ctx := if Truthy(ctxGroup) then Some(Inner(ctxGroup.value)) else st.context;
    var (msgs, err) := ConstantMessages(tag.constants, st.lineno);
    if err.Some? then Effect(st.(context := ctx), msgs, err)
    else
      var inBlock := st.(intrans := true, inplural := false, trimmed := "trimmed" in tag.words,
                        context := ctx, singular := [], plural := []);
      Effect(inBlock, msgs, None)
  }

  /** A block tag outside a trans block. */
  function OutsideBlock(st: State, tag: BlockTag): (e: Effect)
    requires !st.intrans
    ensures tag.inline.Some? ==>
      && (e.error.Some? <==> |tag.inline.value.message| == 0)
      && (e.error.None? ==> |e.messages| == 1 && !e.state.intrans)
    ensures tag.inline.None? && tag.blockOpen.Some? ==>
      && Unquoted(e.messages, tag.constants, st.lineno)
      && (e.error.None? <==> AllNonEmpty(tag.constants))
      && (e.error.None? ==> e.state.intrans)
    ensures tag.inline.None? && tag.blockOpen.None? ==>
      && e.state == st
      && Unquoted(e.messages, tag.constants, st.lineno)
      && (e.error.None? <==> AllNonEmpty(tag.constants))
      && (e.error.None? ==> |e.messages| == |tag.constants|)
    ensures e.state.lineno == st.lineno
  {
    if tag.inline.Some? then InlineTrans(st, tag.inline.value)
    else if tag.blockOpen.Some? then OpenBlock(st, tag, tag.blockOpen.value)
    else
      var (msgs, err) := ConstantMessages(tag.constants, st.lineno);
      Effect(st, msgs, err)
  }

  /**
   * The message of one filter of a variable token (`x|default:_("...")`),
   * if the filter holds `:_(`: what follows its first `:`, without a
   * leading `_`, stripped of parentheses when it starts with one, and
   * unquoted.
   */
  function FilterMessage(p: string): (r: Option<Result<string, ExtractError>>)
    ensures r.Some? <==> Contains(p, ":_(")
  {
    if !Contains(p, ":_(") then None
    else
      AfterColonLength(p);
      Some(StripQuotes(CallArgument(AfterFirst(p, ':'))))
  }

  /** What follows the colon, less one leading `_` and, when a parenthesis opens, the parentheses at both ends. */
  function CallArgument(a: string): string
    requires |a| >= 2
  {
    var a1 := if a[0] == '_' then a[1..] else a;
    if a1[0] == '(' then Strip(a1, {'(', ')'}) else a1
  }

  /** When `:_(` occurs, what follows the first `:` has at least two characters. */
  lemma {:induction false} AfterColonLength(p: string)
    requires Contains(p, ":_(")
    ensures ':' in p && |AfterFirst(p, ':')| >= 2
    decreases |p|
  {
    if StartsWith(p, ":_(") {
      assert p[0] == ':';
    } else {
      AfterColonLength(p[1..]);
      assert ':' in p by { var k :| 0 <= k < |p[1..]| && p[1..][k] == ':'; assert p[k + 1] == ':'; }
    }
  }

  /**
   * The message of a filter written `name:_("text")` (or with single
   * quotes) is `text`, whatever `text` holds.
   */
  lemma FilterQuotedCall(name: string, text: string, q: char)
    requires ':' !in name && q in {'\'', '"'}
    ensures FilterMessage(name + ":_(" + [q] + text + [q] + ")") == Some(Ok(text))
  {
    var arg := [q] + text + [q];
    assert name + ":_(" + [q] + text + [q] + ")" == name + ":_(" + arg + ")";
    FilterParenthesized(name, arg);
    assert arg[1..|arg| - 1] == text;
  }

  /** The message of a filter `name:_(arg)` is `arg` unquoted, when `arg` has no parenthesis at either end. */
  lemma FilterParenthesized(name: string, arg: string)
    requires ':' !in name && |arg| > 0 && arg[0] !in {'(', ')'} && arg[|arg| - 1] !in {'(', ')'}
    ensures FilterMessage(name + ":_(" + arg + ")") == Some(StripQuotes(arg))
  {
    var tail := "_(" + arg + ")";
    FilterShape(name, arg);
    ContainsAt(name, ":_(", arg + ")");
    AfterFirstAfter(name, ':', tail);
    TailArgument(arg);
  }

  lemma FilterShape(name: string, arg: string)
    ensures name + ":_(" + arg + ")" == name + ":_(" + (arg + ")")
    ensures name + ":_(" + arg + ")" == name + [':'] + ("_(" + arg + ")")
  {
  }

  lemma TailArgument(arg: string)
    requires |arg| > 0 && arg[0] !in {'(', ')'} && arg[|arg| - 1] !in {'(', ')'}
    ensures CallArgument("_(" + arg + ")") == arg
  {
    var tail := "_(" + arg + ")";
    assert tail[1..] == "(" + arg + ")";
    StripWrapped(arg, {'(', ')'}, '(', ')');
  }

  /** The filters of a variable token that hold `:_(`, and so yield a message, in order. */
  function Yielding(parts: seq<string>): (ys: seq<string>)
    ensures |ys| <= |parts|
    ensures forall i :: 0 <= i < |ys| ==> Contains(ys[i], ":_(")
  {
    if |parts| == 0 then []
    else if Contains(parts[0], ":_(") then [parts[0]] + Yielding(parts[1..])
    else Yielding(parts[1..])
  }

  /** `ms` are the records of the first `|ms|` filters of `ys`, one each, in order, at `lineno`. */
  predicate FilterRecords(ms: seq<Message>, ys: seq<string>, lineno: int) {
    && |ms| <= |ys|
    && forall i :: 0 <= i < |ms| ==>
      var r := FilterMessage(ys[i]);
      r.Some? && r.value.Ok? && ms[i] == Message(lineno, None, [r.value.value])
  }

  /** No filter of `ys` raises. */
  predicate FiltersOk(ys: seq<string>) {
    forall i :: 0 <= i < |ys| ==> FilterMessage(ys[i]).Some? && FilterMessage(ys[i]).value.Ok?
  }

  lemma FiltersOkCons(y: string, ys: seq<string>)
    requires FilterMessage(y).Some? && FilterMessage(y).value.Ok?
    ensures FiltersOk([y] + ys) <==> FiltersOk(ys)
  {
    var zs := [y] + ys;
    assert forall i :: 0 <= i < |ys| ==> zs[i + 1] == ys[i];
    assert zs[0] == y;
    assert forall i :: 0 < i < |zs| ==> zs[i] == ys[i - 1];
  }

  lemma FilterRecordsCons(m: string, ms: seq<Message>, y: string, ys: seq<string>, lineno: int)
    requires FilterMessage(y) == Some(Ok(m)) && FilterRecords(ms, ys, lineno)
    ensures FilterRecords([Message(lineno, None, [m])] + ms, [y] + ys, lineno)
  {
    var zs := [y] + ys;
    var ns := [Message(lineno, None, [m])] + ms;
    assert forall i :: 0 < i < |ns| ==> ns[i] == ms[i - 1] && zs[i] == ys[i - 1];
  }

  /**
   * Messages from the filters of a variable token: one per filter holding
   * `:_(`, in order, up to the first one that raises.
   */
  function FilterMessages(parts: seq<string>, lineno: int): (e: (seq<Message>, Option<ExtractError>))
    ensures FilterRecords(e.0, Yielding(parts), lineno)
    ensures e.1.None? <==> FiltersOk(Yielding(parts))
    ensures e.1.None? ==> |e.0| == |Yielding(parts)|
    ensures e.1.Some? ==>
      |e.0| < |Yielding(parts)| && FilterMessage(Yielding(parts)[|e.0|]) == Some(Err(e.1.value))
  {
    if |parts| == 0 then ([], None)
    else
      var ys := Yielding(parts[1..]);
      match FilterMessage(parts[0])
      case None => FilterMessages(parts[1..], lineno)
      case Some(Err(err)) =>
        assert Yielding(parts)[0] == parts[0];
        ([], Some(err))
      case Some(Ok(m)) =>
        var rest := FilterMessages(parts[1..], lineno);
        FiltersOkCons(parts[0], ys);
        FilterRecordsCons(m, rest.0, parts[0], ys, lineno);
        assert Yielding(parts) == [parts[0]] + ys;
        ([Message(lineno, None, [m])] + rest.0, rest.1)
  }

  /**
   * A variable token outside a trans block: the message of its constant
   * (an empty one raises), then one message per filter holding `:_(`; the
   * state stays as it is.
   */
  function OutsideVar(st: State, contents: string, constant: Option<string>): (e: Effect)
    ensures e.state == st
    ensures forall i :: 0 <= i < |e.messages| ==> e.messages[i].lineno == st.lineno
    ensures constant.Some? && |constant.value| == 0 ==> e.messages == [] && e.error == Some(IndexError)
    ensures constant.Some? && |constant.value| > 0 ==>
      |e.messages| > 0 && e.messages[0] == Message(st.lineno, None, [StripQuotes(constant.value).value])
    ensures constant.None? || |constant.value| > 0 ==>
      var ys := Yielding(Split(contents, '|')[1..]);
      var h := if constant.Some? then 1 else 0;
      && h <= |e.messages|
      && FilterRecords(e.messages[h..], ys, st.lineno)
      && (e.error.None? <==> FiltersOk(ys))
      && (e.error.None? ==> |e.messages| == h + |ys|)
  {
    var parts := Split(contents, '|');
    var first: Result<seq<Message>, ExtractError> :=
      if constant.None? then Ok([])
      else match StripQuotes(constant.value)
        case Err(err) => Err(err)
        case Ok(m) => Ok([Message(st.lineno, None, [m])]);
    match first
    case Err(err) => Effect(st, [], Some(err))
    case Ok(head) =>
      var (msgs, err) := FilterMessages(parts[1..], st.lineno);
      Effect(st, head + msgs, err)
  }

  /**
   * A variable token `name|filter:_("text")` without a leading constant
   * yields exactly the record of `text`, on the current line.
   */
  lemma VarQuotedFilter(st: State, name: string, filter: string, text: string, q: char)
    requires '|' !in name && '|' !in filter && ':' !in filter && '|' !in text && q in {'\'', '"'}
    ensures OutsideVar(st, name + "|" + filter + ":_(" + [q] + text + [q] + ")", None)
      == Effect(st, [Message(st.lineno, None, [text])], None)
  {
    var f := filter + ":_(" + [q] + text + [q] + ")";
    assert '|' !in f;
    assert name + "|" + filter + ":_(" + [q] + text + [q] + ")" == name + ['|'] + f;
    SplitAt(name, '|', f);
    SplitNone(f, '|');
    FilterQuotedCall(filter, text, q);
    var parts := [name] + [f];
    assert parts[1..] == [f] && [f][1..] == [];
  }

  /** One iteration of the extractor's loop: advance `lineno`, then dispatch. */
  function Step(st: State, t: Token, trim: string -> string): (e: Effect)
    ensures e.state.lineno == st.lineno + CountChar(t.Contents(), '\n')
    ensures forall i :: 0 <= i < |e.messages| ==> e.messages[i].lineno == e.state.lineno
  {
    var st1 := st.(lineno := st.lineno + CountChar(t.Contents(), '\n'));
    if st1.intrans then InTrans(st1, t, trim)
    else match t
      case Block(tag) =>
        var e := OutsideBlock(st1, tag);
        assert forall i :: 0 <= i < |e.messages| ==> e.messages[i].lineno == st1.lineno;
        e
      case Var(name, constant) => OutsideVar(st1, name, constant)
      case _ => Effect(st1, [], None)
  }

  /** Where a run over a token list ends: the last state, every record yielded, and the exception, if any. */
  datatype Outcome = Outcome(state: State, messages: seq<Message>, error: Option<ExtractError>)

  /** The newlines in the contents of all the tokens. */
  function NewlinesIn(ts: seq<Token>): nat {
    if |ts| == 0 then 0 else CountChar(ts[0].Contents(), '\n') + NewlinesIn(ts[1..])
  }

  predicate LinesNondecreasing(ms: seq<Message>) {
    forall i, j :: 0 <= i <= j < |ms| ==> ms[i].lineno <= ms[j].lineno
  }

  /** The extractor's loop from state `st` over `ts`, stopping at the first exception. */
  function Run(st: State, ts: seq<Token>, trim: string -> string): (o: Outcome)
    ensures o.error.None? ==> o.state.lineno == st.lineno + NewlinesIn(ts)
    ensures st.lineno <= o.state.lineno
    decreases |ts|
  {
    if |ts| == 0 then Outcome(st, [], None)
    else
      var e := Step(st, ts[0], trim);
      if e.error.Some? then Outcome(e.state, e.messages, e.error)
      else
        var rest := Run(e.state, ts[1..], trim);
        Outcome(rest.state, e.messages + rest.messages, rest.error)
  }

  /**
   * Line numbers only grow: every record of a run carries a line number
   * between the starting one and the final one, in order.
   */
  lemma {:induction false} RunLines(st: State, ts: seq<Token>, trim: string -> string)
    ensures var o := Run(st, ts, trim);
      && (forall i :: 0 <= i < |o.messages| ==> st.lineno <= o.messages[i].lineno <= o.state.lineno)
      && LinesNondecreasing(o.messages)
    decreases |ts|
  {
    if |ts| > 0 {
      var e := Step(st, ts[0], trim);
      if e.error.None? {
        RunLines(e.state, ts[1..], trim);
        var rest := Run(e.state, ts[1..], trim);
        LinesAppend(e.messages, rest.messages, st.lineno, e.state.lineno, rest.state.lineno);
      }
    }
  }

  /** Records at one line followed by ordered records at later lines stay ordered. */
  lemma LinesAppend(a: seq<Message>, b: seq<Message>, lo: int, mid: int, hi: int)
    requires lo <= mid <= hi
    requires forall i :: 0 <= i < |a| ==> a[i].lineno == mid
    requires forall i :: 0 <= i < |b| ==> mid <= b[i].lineno <= hi
    requires LinesNondecreasing(b)
    ensures forall i :: 0 <= i < |a + b| ==> lo <= (a + b)[i].lineno <= hi
    ensures LinesNondecreasing(a + b)
  {
  }

  /**
   * `extract_django` over an already lexed template: line numbers start at
   * 1 and never decrease across the records it yields.
   */
  function Extract(ts: seq<Token>, trim: string -> string): (o: Outcome)
    ensures forall i :: 0 <= i < |o.messages| ==> 1 <= o.messages[i].lineno
    ensures LinesNondecreasing(o.messages)
    ensures o.error.None? ==> o.state.lineno == 1 + NewlinesIn(ts)
  {
    RunLines(Start, ts, trim);
    Run(Start, ts, trim)
  }

  /** Outside a trans block the remembered context is never a non-empty string. */
  predicate ContextCleared(st: State) {
    !st.intrans ==> !Truthy(st.context)
  }

  /** Each token that does not raise keeps the context cleared outside blocks. */
  lemma StepKeepsContextCleared(st: State, t: Token, trim: string -> string)
    requires ContextCleared(st)
    ensures var e := Step(st, t, trim); e.error.None? ==> ContextCleared(e.state)
  {
  }

  /** So does every run that does not raise, in particular one from the start. */
  lemma {:induction false} RunKeepsContextCleared(st: State, ts: seq<Token>, trim: string -> string)
    requires ContextCleared(st)
    ensures var o := Run(st, ts, trim); o.error.None? ==> ContextCleared(o.state)
    decreases |ts|
  {
    if |ts| > 0 {
      StepKeepsContextCleared(st, ts[0], trim);
      var e := Step(st, ts[0], trim);
      if e.error.None? {
        RunKeepsContextCleared(e.state, ts[1..], trim);
      }
    }
  }

  /** Joining without trimming is plain concatenation, and it distributes over `+`. */
  lemma {:induction false} ConcatAppend(a: seq<string>, b: seq<string>)
    ensures Concat(a + b) == Concat(a) + Concat(b)
    ensures JoinTokens(a + b, false, x => x) == JoinTokens(a, false, x => x) + JoinTokens(b, false, x => x)
    decreases |a|
  {
    if |a| > 0 {
      assert (a + b)[1..] == a[1..] + b;
      ConcatAppend(a[1..], b);
    } else {
      assert a + b == b;
    }
  }

  /** The contents of a list of tokens. */
  function ContentsOf(ts: seq<Token>): (cs: seq<string>)
    ensures |cs| == |ts| && forall i :: 0 <= i < |ts| ==> cs[i] == ts[i].Contents()
  {
    if |ts| == 0 then [] else [ts[0].Contents()] + ContentsOf(ts[1..])
  }

  /** Inside a block, before its plural tag, a text token only grows the singular buffer. */
  lemma StepText(st: State, t: Token, trim: string -> string)
    requires st.intrans && !st.inplural && t.Text?
    ensures Step(st, t, trim) ==
      Effect(st.(singular := st.singular + [t.contents], lineno := st.lineno + CountChar(t.contents, '\n')), [], None)
  {
  }

  lemma SeqAssoc<T>(a: seq<T>, b: seq<T>, c: seq<T>)
    ensures a + b + c == a + (b + c)
  {
  }

  /** So do runs of text tokens. */
  lemma {:induction false} RunTexts(st: State, body: seq<Token>, trim: string -> string)
    requires st.intrans && !st.inplural
    requires forall i :: 0 <= i < |body| ==> body[i].Text?
    ensures Run(st, body, trim) ==
      Outcome(st.(singular := st.singular + ContentsOf(body), lineno := st.lineno + NewlinesIn(body)), [], None)
    decreases |body|
  {
    if |body| > 0 {
      StepText(st, body[0], trim);
      var next := st.(singular := st.singular + [body[0].contents], lineno := st.lineno + CountChar(body[0].contents, '\n'));
      RunTexts(next, body[1..], trim);
      var e := Step(st, body[0], trim);
      assert e.state == next && e.error.None? && e.messages == [];
      var rest := Run(next, body[1..], trim);
      assert Run(st, body, trim) == Outcome(rest.state, [] + rest.messages, rest.error);
      assert NewlinesIn(body) == CountChar(body[0].contents, '\n') + NewlinesIn(body[1..]);
      var tail := ContentsOf(body[1..]);
      assert ContentsOf(body) == [body[0].contents] + tail;
      SeqAssoc(st.singular, [body[0].contents], tail);
    } else {
      assert st.singular + ContentsOf(body) == st.singular;
    }
  }

  /** A plain opening tag at the start only enters the block. */
  lemma StepOpen(open: BlockTag, trim: string -> string)
    requires open.inline.None? && open.blockOpen == Some(None) && open.constants == [] && "trimmed" !in open.words
    ensures Step(Start, Block(open), trim) ==
      Effect(Start.(intrans := true, lineno := 1 + CountChar(open.contents, '\n')), [], None)
  {
  }

  /** The end tag yields the block's one record and leaves the block. */
  lemma RunEnd(st: State, end: BlockTag, trim: string -> string)
    requires st.intrans && end.isEnd
    ensures var st1 := st.(lineno := st.lineno + CountChar(end.contents, '\n'));
      Run(st, [Block(end)], trim) ==
        Outcome(st1.(intrans := false, inplural := false, context := None, singular := [], plural := []),
                [EndMessage(st1, trim)], None)
  {
    var ts := [Block(end)];
    RunCons(st, ts, trim);
    assert ts[1..] == [];
  }

  /** Inside a fresh block, text followed by the end tag yields one record of the joined texts. */
  lemma {:induction false} BlockBodyRun(s0: State, body: seq<Token>, end: BlockTag, trim: string -> string)
    requires s0.intrans && !s0.inplural && !s0.trimmed && s0.context.None? && s0.singular == []
    requires forall i :: 0 <= i < |body| ==> body[i].Text?
    requires end.isEnd
    ensures var o := Run(s0, body + [Block(end)], trim);
      && o.error.None?
      && |o.messages| == 1
      && o.messages[0] == Message(s0.lineno + NewlinesIn(body + [Block(end)]), None, [Concat(ContentsOf(body))])
      && !o.state.intrans && o.state.singular == [] && o.state.context.None?
  {
    RunTexts(s0, body, trim);
    var mid := s0.(singular := s0.singular + ContentsOf(body), lineno := s0.lineno + NewlinesIn(body));
    RunAppend(s0, body, [Block(end)], trim);
    RunEnd(mid, end, trim);
    var mid1 := mid.(lineno := mid.lineno + CountChar(end.contents, '\n'));
    assert s0.singular + ContentsOf(body) == ContentsOf(body);
    NewlinesSplit(body, [Block(end)]);
    assert EndMessage(mid1, trim) == Message(mid1.lineno, None, [Concat(ContentsOf(body))]);
  }

  /**
   * A template made of a plain opening tag, text, and the end tag yields
   * exactly one record: no function name, the texts joined, at the line of
   * the end tag; and the extractor is back outside any block.
   */
  lemma TransBlockMessage(open: BlockTag, body: seq<Token>, end: BlockTag, trim: string -> string)
    requires open.inline.None? && open.blockOpen == Some(None) && open.constants == [] && "trimmed" !in open.words
    requires forall i :: 0 <= i < |body| ==> body[i].Text?
    requires end.isEnd
    ensures var o := Run(Start, [Block(open)] + body + [Block(end)], trim);
      && o.error.None?
      && |o.messages| == 1
      && o.messages[0] == Message(1 + NewlinesIn([Block(open)] + body + [Block(end)]), None, [Concat(ContentsOf(body))])
      && !o.state.intrans && o.state.singular == [] && o.state.context.None?
  {
    var rest := body + [Block(end)];
    SeqAssoc([Block(open)], body, [Block(end)]);
    OpenThenRun(open, rest, trim);
    var s0 := Start.(intrans := true, lineno := 1 + CountChar(open.contents, '\n'));
    BlockBodyRun(s0, body, end, trim);
    NewlinesCons(Block(open), rest);
  }

  /** A plain opening tag enters the block and yields nothing. */
  lemma OpenThenRun(open: BlockTag, rest: seq<Token>, trim: string -> string)
    requires open.inline.None? && open.blockOpen == Some(None) && open.constants == [] && "trimmed" !in open.words
    ensures Run(Start, [Block(open)] + rest, trim) ==
      Run(Start.(intrans := true, lineno := 1 + CountChar(open.contents, '\n')), rest, trim)
  {
    var ts := [Block(open)] + rest;
    StepOpen(open, trim);
    assert ts[1..] == rest;
    RunCons(Start, ts, trim);
    var o := Run(Start.(intrans := true, lineno := 1 + CountChar(open.contents, '\n')), rest, trim);
    assert [] + o.messages == o.messages;
  }

  lemma NewlinesCons(t: Token, rest: seq<Token>)
    ensures NewlinesIn([t] + rest) == CountChar(t.Contents(), '\n') + NewlinesIn(rest)
  {
    assert ([t] + rest)[1..] == rest;
  }

  /** One unfolding of `Run` past a token that does not raise. */
  lemma RunCons(st: State, ts: seq<Token>, trim: string -> string)
    requires |ts| > 0 && Step(st, ts[0], trim).error.None?
    ensures var e := Step(st, ts[0], trim);
      var rest := Run(e.state, ts[1..], trim);
      Run(st, ts, trim) == Outcome(rest.state, e.messages + rest.messages, rest.error)
  {
  }

  /** Running over `a + b` without an exception in `a` is running over `a`, then `b`. */
  lemma {:induction false} RunAppend(st: State, a: seq<Token>, b: seq<Token>, trim: string -> string)
    ensures var oa := Run(st, a, trim);
      oa.error.None? ==>
        var ob := Run(oa.state, b, trim);
        Run(st, a + b, trim) == Outcome(ob.state, oa.messages + ob.messages, ob.error)
    decreases |a|
  {
    if |a| == 0 {
      assert a + b == b;
    } else {
      var e := Step(st, a[0], trim);
      var oa := Run(st, a, trim);
      if e.error.None? && oa.error.None? {
        var ab := a + b;
        assert ab[0] == a[0] && ab[1..] == a[1..] + b;
        RunCons(st, a, trim);
        RunCons(st, ab, trim);
        var oa' := Run(e.state, a[1..], trim);
        assert oa.state == oa'.state && oa.messages == e.messages + oa'.messages;
        RunAppend(e.state, a[1..], b, trim);
        var ob := Run(oa'.state, b, trim);
        SeqAssoc(e.messages, oa'.messages, ob.messages);
      }
    }
  }

  /** Newlines add up over concatenated token lists. */
  lemma {:induction false} NewlinesSplit(a: seq<Token>, b: seq<Token>)
    ensures NewlinesIn(a + b) == NewlinesIn(a) + NewlinesIn(b)
    decreases |a|
  {
    if |a| == 0 {
      assert a + b == b;
    } else {
      assert (a + b)[1..] == a[1..] + b;
      NewlinesSplit(a[1..], b);
    }
  }
}
