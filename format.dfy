/**
  Template interpolation: `format(template, params...)` (index.js, `extendWith.format`).

  The source runs `template.replace(/{[a-zA-Z_$]?[0-9a-zA-Z_$]*}/g, callback)`: the regular
  expression engine scans the template from left to right, and every non-overlapping marker
  it finds is replaced by what the callback returns. The callback reads a counter `i` that
  it advances itself, so the output depends on the order in which markers are met.

  Model: `MarkerAt` is the pattern match at one position, `Pieces` the left-to-right scan,
  `Render` the replacement with the counter threaded through, and the method `Format` the
  scanning loop. `NamedMode` and `PositionalMode` give closed forms for the two calling
  conventions.
*/
module TemplateFormat {
  import opened Wrappers

  /** What a call supplies after the template. The source picks the mode once, by whether the
      first extra argument is an object. */
  datatype Params =
    | Positional(args: seq<Option<string>>) // arguments[1..]; None is an undefined argument
    | Named(record: map<string, string>)    // the params object; an absent key reads as undefined

  /** `[a-zA-Z_$]`, the optional first class of the marker pattern. */
  predicate IsLeadChar(c: char) {
    'a' <= c <= 'z' || 'A' <= c <= 'Z' || c == '_' || c == '$'
  }

  /** `[0-9a-zA-Z_$]`, the starred class of the marker pattern. */
  predicate IsNameChar(c: char) {
    IsLeadChar(c) || '0' <= c <= '9'
  }

  predicate AllNameChars(s: string) {
    forall k :: 0 <= k < |s| ==> IsNameChar(s[k])
  }

  /** `s` is matched, as a whole, by `{[a-zA-Z_$]?[0-9a-zA-Z_$]*}`, written as the pattern reads:
      a brace, an optional lead character, any number of name characters, a brace. */
  predicate IsMarker(s: string) {
    && |s| >= 2 && s[0] == '{' && s[|s| - 1] == '}'
    && var body := s[1..|s| - 1];
       || AllNameChars(body)
       || (|body| > 0 && IsLeadChar(body[0]) && AllNameChars(body[1..]))
  }

  /** The optional lead class adds nothing: a marker is a brace, name characters and a brace,
      so names that start with a digit, such as `{1}`, are markers too. */
  lemma MarkerIsBracedName(s: string)
    ensures IsMarker(s) <==>
      |s| >= 2 && s[0] == '{' && s[|s| - 1] == '}' && forall k :: 1 <= k < |s| - 1 ==> IsNameChar(s[k])
  {
    if |s| >= 2 {
      var body := s[1..|s| - 1];
      if |body| > 0 && IsLeadChar(body[0]) && AllNameChars(body[1..]) {
        forall k | 0 <= k < |body| ensures IsNameChar(body[k]) {
          if k > 0 { assert body[k] == body[1..][k - 1]; }
        }
      }
      if forall k :: 1 <= k < |s| - 1 ==> IsNameChar(s[k]) {
        forall k | 0 <= k < |body| ensures IsNameChar(body[k]) {
          assert body[k] == s[k + 1];
        }
      }
    }
  }

  /** The end of the run of name characters that starts at `p`. */
  function NameEnd(t: string, p: nat): (q: nat)
    requires p <= |t|
    ensures p <= q <= |t|
    ensures AllNameChars(t[p..q])
    ensures q == |t| || !IsNameChar(t[q])
    decreases |t| - p
  {
    if p < |t| && IsNameChar(t[p]) then NameEnd(t, p + 1) else p
  }

  /** The pattern tried at position `p`: the end (exclusive) of the marker that starts there,
      if any. `MarkerAtMatches` states what it finds. */
  function MarkerAt(t: string, p: nat): (r: Option<nat>)
    requires p < |t|
    ensures r.Some? ==> p + 2 <= r.value <= |t| && t[p] == '{' && t[r.value - 1] == '}'
  {
    if t[p] != '{' then None
    else
      var q := NameEnd(t, p + 1);
      if q < |t| && t[q] == '}' then Some(q + 1) else None
  }

  /** `MarkerAt` finds a marker exactly when the pattern matches at `p`, and there is at most
      one match there, so the result does not depend on the order of backtracking. */
  lemma MarkerAtMatches(t: string, p: nat, e: nat)
    requires p < e <= |t|
    ensures IsMarker(t[p..e]) <==> MarkerAt(t, p) == Some(e)
  {
    var s := t[p..e];
    MarkerIsBracedName(s);
    if t[p] == '{' {
      var q := NameEnd(t, p + 1);
      assert forall k :: p + 1 <= k < q ==> IsNameChar(t[k]) by {
        forall k | p + 1 <= k < q ensures IsNameChar(t[k]) {
          assert t[k] == t[p + 1..q][k - (p + 1)];
        }
      }
      assert IsMarker(s) ==> forall k :: p + 1 <= k < e - 1 ==> IsNameChar(t[k]) by {
        forall k | p + 1 <= k < e - 1 && IsMarker(s) ensures IsNameChar(t[k]) {
          assert t[k] == s[k - p];
        }
      }
      if MarkerAt(t, p) == Some(e) {
        forall k | 1 <= k < |s| - 1 ensures IsNameChar(s[k]) {
          assert s[k] == t[p + 1..q][k - 1];
        }
      }
    }
  }

  /** One unit of the scan: a character copied as it is, or a marker with the name between its
      braces. */
  datatype Piece = Text(c: char) | Marker(name: string)

  /** The global `replace` scan from position `p`: try the pattern; on a match emit the marker and
      resume after it, otherwise emit one character and move on by one. */
  function PiecesFrom(t: string, p: nat): seq<Piece>
    requires p <= |t|
    decreases |t| - p
  {
    if p == |t| then []
    else
      match MarkerAt(t, p)
      case Some(q) => [Marker(t[p + 1..q - 1])] + PiecesFrom(t, q)
      case None => [Text(t[p])] + PiecesFrom(t, p + 1)
  }

  function Pieces(t: string): seq<Piece> {
    PiecesFrom(t, 0)
  }

  /** The template text a list of pieces was read from. */
  function SourceText(ps: seq<Piece>): string {
    if ps == [] then ""
    else
      match ps[0]
      case Text(c) => [c] + SourceText(ps[1..])
      case Marker(name) => "{" + name + "}" + SourceText(ps[1..])
  }

  /** The template with its markers taken out. */
  function Literal(ps: seq<Piece>): string {
    if ps == [] then ""
    else
      match ps[0]
      case Text(c) => [c] + Literal(ps[1..])
      case Marker(_) => Literal(ps[1..])
  }

  function MarkerCount(ps: seq<Piece>): nat {
    if ps == [] then 0 else (if ps[0].Marker? then 1 else 0) + MarkerCount(ps[1..])
  }

  /** The names of the markers, in template order. */
  function MarkerNames(ps: seq<Piece>): (names: seq<string>)
    ensures |names| == MarkerCount(ps)
  {
    if ps == [] then []
    else if ps[0].Marker? then [ps[0].name] + MarkerNames(ps[1..])
    else MarkerNames(ps[1..])
  }

  /** The scan cuts the template into pieces without dropping, reordering or overlapping
      anything: characters outside markers are copied verbatim and each marker is exactly the
      text it matched. */
  lemma {:induction false} SourceOfPiecesFrom(t: string, p: nat)
    requires p <= |t|
    ensures SourceText(PiecesFrom(t, p)) == t[p..]
    decreases |t| - p
  {
    if p < |t| {
      var ps := PiecesFrom(t, p);
      match MarkerAt(t, p)
      case Some(q) =>
        SourceOfPiecesFrom(t, q);
        assert ps[1..] == PiecesFrom(t, q);
        assert t[p..] == "{" + t[p + 1..q - 1] + "}" + t[q..];
      case None =>
        SourceOfPiecesFrom(t, p + 1);
        assert ps[1..] == PiecesFrom(t, p + 1);
        assert t[p..] == [t[p]] + t[p + 1..];
    }
  }

  lemma SourceOfPieces(t: string)
    ensures SourceText(Pieces(t)) == t
  {
    SourceOfPiecesFrom(t, 0);
  }

  /** `params[name]`, with an absent key giving the empty string. */
  function Lookup(record: map<string, string>, name: string): string {
    if name in record then record[name] else ""
  }

  /** The number of leading arguments that are defined. */
  function DefinedPrefix(args: seq<Option<string>>): (d: nat)
    ensures d <= |args|
    ensures forall k :: 0 <= k < d ==> args[k].Some?
    ensures d == |args| || args[d].None?
  {
    if args == [] || args[0].None? then 0 else 1 + DefinedPrefix(args[1..])
  }

  /** The replace callback: the text that replaces a marker named `name` when the counter is
      `i`, and the counter afterwards. In positional mode the counter moves on only when the
      argument it reads is defined. */
  function Substitute(params: Params, name: string, i: nat): (r: (string, nat))
    ensures r.1 == i || r.1 == i + 1
    ensures r.1 == i + 1 <==> params.Positional? && i < |params.args| && params.args[i].Some?
    ensures r.1 == i + 1 ==> r.0 == params.args[i].value
    ensures params.Positional? && r.1 == i ==> r.0 == ""
    ensures params.Named? ==> r.0 == Lookup(params.record, name)
  {
    match params
    case Named(record) => (Lookup(record, name), i)
    case Positional(args) =>
      if i < |args| && args[i].Some? then (args[i].value, i + 1) else ("", i)
  }

  /** The output of the scan: text pieces copied, each marker replaced by the callback's value,
      the counter threaded from marker to marker. */
  function Render(ps: seq<Piece>, params: Params, i: nat): string {
    if ps == [] then ""
    else
      match ps[0]
      case Text(c) => [c] + Render(ps[1..], params, i)
      case Marker(name) =>
        var (v, j) := Substitute(params, name, i);
        v + Render(ps[1..], params, j)
  }

  /** Reference substitution without a counter: the k-th marker becomes `vals[k]`. */
  function FillValues(ps: seq<Piece>, vals: seq<string>): string
    requires |vals| == MarkerCount(ps)
  {
    if ps == [] then ""
    else
      match ps[0]
      case Text(c) => [c] + FillValues(ps[1..], vals)
      case Marker(_) => vals[0] + FillValues(ps[1..], vals[1..])
  }

  /** Named mode: each marker's value, looked up by its own name. */
  function NamedValues(record: map<string, string>, names: seq<string>): seq<string> {
    seq(|names|, k requires 0 <= k < |names| => Lookup(record, names[k]))
  }

  /** Positional mode: the value the counter semantics gives the k-th marker. */
  function PositionalValue(args: seq<Option<string>>, k: int): string {
    if 0 <= k < DefinedPrefix(args) then args[k].value else ""
  }

  function PositionalValues(args: seq<Option<string>>, from: nat, n: nat): seq<string> {
    seq(n, k => PositionalValue(args, from + k))
  }

  /** Named mode: every marker is replaced by `params[name]`, or by '' when the key is absent;
      the counter plays no part, so repeated names give repeated values. */
  lemma {:induction false} NamedMode(ps: seq<Piece>, record: map<string, string>, i: nat)
    ensures Render(ps, Named(record), i) == FillValues(ps, NamedValues(record, MarkerNames(ps)))
  {
    if ps != [] {
      NamedMode(ps[1..], record, i);
      var names := MarkerNames(ps);
      if ps[0].Marker? {
        assert NamedValues(record, names)[1..] == NamedValues(record, MarkerNames(ps[1..]));
      }
    }
  }

  /** Positional mode: markers take the defined arguments one after the other, in template
      order, whatever their names; from the first undefined argument on, or once the arguments
      run out, every marker becomes '' because the counter no longer moves. */
  lemma {:induction false} PositionalMode(ps: seq<Piece>, args: seq<Option<string>>, i: nat)
    requires i <= DefinedPrefix(args)
    ensures Render(ps, Positional(args), i) == FillValues(ps, PositionalValues(args, i, MarkerCount(ps)))
  {
    if ps != [] {
      var n := MarkerCount(ps);
      var vals := PositionalValues(args, i, n);
      if ps[0].Marker? {
        var filled := Substitute(Positional(args), ps[0].name, i);
        assert vals[0] == PositionalValue(args, i);
        if i < DefinedPrefix(args) {
          assert filled == (args[i].value, i + 1);
        } else {
          assert filled == ("", i);
        }
        PositionalMode(ps[1..], args, filled.1);
        CounterShift(args, i, filled.1, n - 1);
        assert FillValues(ps, vals) == vals[0] + FillValues(ps[1..], vals[1..]);
      } else {
        PositionalMode(ps[1..], args, i);
      }
    }
  }

  /** After one positional marker the values still to come are those from the new counter on:
      the counter either moved past a defined argument or is stuck where the values are ''. */
  lemma CounterShift(args: seq<Option<string>>, i: nat, j: nat, n: nat)
    requires (i < DefinedPrefix(args) && j == i + 1) || (i == DefinedPrefix(args) && j == i)
    ensures PositionalValues(args, i, n + 1)[1..] == PositionalValues(args, j, n)
  {
    var vals := PositionalValues(args, i, n + 1);
    forall k | 0 <= k < n ensures vals[1..][k] == PositionalValues(args, j, n)[k] {
      assert vals[1..][k] == PositionalValue(args, i + 1 + k);
      assert PositionalValues(args, j, n)[k] == PositionalValue(args, j + k);
      if j == i {
        assert PositionalValue(args, i + 1 + k) == "" == PositionalValue(args, j + k);
      }
    }
  }

  /** A template in which the pattern matches nowhere comes back unchanged, whatever the
      parameters. */
  lemma {:induction false} NoMarkersUnchanged(t: string, params: Params, i: nat)
    requires forall p :: 0 <= p < |t| ==> MarkerAt(t, p) == None
    ensures Render(Pieces(t), params, i) == t
  {
    NoMarkersUnchangedFrom(t, 0, params, i);
  }

  lemma {:induction false} NoMarkersUnchangedFrom(t: string, p: nat, params: Params, i: nat)
    requires p <= |t|
    requires forall p :: 0 <= p < |t| ==> MarkerAt(t, p) == None
    ensures Render(PiecesFrom(t, p), params, i) == t[p..]
    decreases |t| - p
  {
    if p < |t| {
      assert MarkerAt(t, p) == None;
      RenderTextStep(t, p, params, i, "");
      NoMarkersUnchangedFrom(t, p + 1, params, i);
      assert t[p..] == [t[p]] + t[p + 1..];
    }
  }

  lemma {:induction false} FillBlank(ps: seq<Piece>, vals: seq<string>)
    requires |vals| == MarkerCount(ps)
    requires forall k :: 0 <= k < |vals| ==> vals[k] == ""
    ensures FillValues(ps, vals) == Literal(ps)
  {
    if ps != [] {
      if ps[0].Marker? {
        FillBlank(ps[1..], vals[1..]);
      } else {
        FillBlank(ps[1..], vals);
      }
    }
  }

  /** Called with no arguments, or with an undefined first argument, every marker is removed:
      'Other {} are {}' becomes 'Other  are '. */
  lemma BlankWithoutArguments(t: string, args: seq<Option<string>>)
    requires |args| == 0 || args[0].None?
    ensures Render(Pieces(t), Positional(args), 0) == Literal(Pieces(t))
  {
    PositionalMode(Pieces(t), args, 0);
    FillBlank(Pieces(t), PositionalValues(args, 0, MarkerCount(Pieces(t))));
  }

  /** One step of the scan, seen from the rendered output: a marker at `p`. Whatever `acc` was
      written before it, the marker's value is appended to `acc` and the rest follows. */
  lemma RenderMarkerStep(t: string, p: nat, q: nat, params: Params, i: nat, acc: string, filled: (string, nat))
    requires p < |t| && MarkerAt(t, p) == Some(q)
    requires filled == Substitute(params, t[p + 1..q - 1], i)
    ensures Render(PiecesFrom(t, p), params, i) == filled.0 + Render(PiecesFrom(t, q), params, filled.1)
    ensures acc + Render(PiecesFrom(t, p), params, i) == (acc + filled.0) + Render(PiecesFrom(t, q), params, filled.1)
  {
    var ps := PiecesFrom(t, p);
    assert ps[0] == Marker(t[p + 1..q - 1]) && ps[1..] == PiecesFrom(t, q);
    var rest := Render(PiecesFrom(t, q), params, filled.1);
    assert acc + (filled.0 + rest) == (acc + filled.0) + rest;
  }

  /** One step of the scan, seen from the rendered output: no marker at `p`, so `t[p]` is
      appended to whatever `acc` was written before it. */
  lemma RenderTextStep(t: string, p: nat, params: Params, i: nat, acc: string)
    requires p < |t| && MarkerAt(t, p) == None
    ensures Render(PiecesFrom(t, p), params, i) == [t[p]] + Render(PiecesFrom(t, p + 1), params, i)
    ensures acc + Render(PiecesFrom(t, p), params, i) == (acc + [t[p]]) + Render(PiecesFrom(t, p + 1), params, i)
  {
    var ps := PiecesFrom(t, p);
    assert ps[0] == Text(t[p]) && ps[1..] == PiecesFrom(t, p + 1);
    var rest := Render(PiecesFrom(t, p + 1), params, i);
    assert acc + ([t[p]] + rest) == (acc + [t[p]]) + rest;
  }

  /** The scanning loop of `template.replace` with the callback's counter `i`. */
  method Format(template: string, params: Params) returns (out: string)
    ensures out == Render(Pieces(template), params, 0)
  {
    out := "";
    var p, i := 0, 0;
    while p < |template|
      invariant p <= |template|
      invariant out + Render(PiecesFrom(template, p), params, i) == Render(Pieces(template), params, 0)
    {
      var m := MarkerAt(template, p);
      if m.Some? {
        var filled := Substitute(params, template[p + 1..m.value - 1], i);
        RenderMarkerStep(template, p, m.value, params, i, out, filled);
        out, p, i := out + filled.0, m.value, filled.1;
      } else {
        RenderTextStep(template, p, params, i, out);
        out, p := out + [template[p]], p + 1;
      }
    }
  }
}
