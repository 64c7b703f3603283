/** The SQL statements the record store sends, as the store builds them: text
    fragments and `?` placeholders, an argument list, and SQLite's LIKE. */
module Sql {
  import opened Common

  /** A piece of statement text: literal text, or one `?` placeholder. */
  datatype Token = Text(s: string) | Param

  /** One bound argument, as the store passes it to the database client. */
  datatype Arg = ArgUndefined | ArgNull | ArgText(text: string) | ArgReal(r: real) | ArgInt(i: int)

  /** An argument that a NOT NULL column refuses. */
  predicate IsNullish(a: Arg) {
    a.ArgUndefined? || a.ArgNull?
  }

  /** The statement text the database receives. */
  function Render(stmt: seq<Token>): string {
    if stmt == [] then ""
    else (match stmt[0] case Text(s) => s case Param => "?") + Render(stmt[1..])
  }

  /** Number of placeholder tokens. */
  function Holes(stmt: seq<Token>): nat {
    if stmt == [] then 0 else (if stmt[0].Param? then 1 else 0) + Holes(stmt[1..])
  }

  /** Number of `?` characters in a text. */
  function CountQ(s: string): nat {
    if s == [] then 0 else (if s[0] == '?' then 1 else 0) + CountQ(s[1..])
  }

  /** Every literal fragment of the statement is free of `?`, as every fragment
      the store writes is. */
  predicate PlainText(stmt: seq<Token>) {
    forall i | 0 <= i < |stmt| :: stmt[i].Text? ==> '?' !in stmt[i].s
  }

  lemma {:induction false} CountQAppend(a: string, b: string)
    ensures CountQ(a + b) == CountQ(a) + CountQ(b)
  {
    if a == [] {
      assert a + b == b;
    } else {
      assert (a + b)[1..] == a[1..] + b;
      CountQAppend(a[1..], b);
    }
  }

  lemma {:induction false} CountQPlain(s: string)
    requires '?' !in s
    ensures CountQ(s) == 0
  {
    if s != [] {
      assert s[0] != '?';
      assert forall c | c in s[1..] :: c in s;
      CountQPlain(s[1..]);
    }
  }

  lemma {:induction false} HolesAppend(a: seq<Token>, b: seq<Token>)
    ensures Holes(a + b) == Holes(a) + Holes(b)
  {
    if a == [] {
      assert a + b == b;
    } else {
      assert (a + b)[1..] == a[1..] + b;
      HolesAppend(a[1..], b);
    }
  }

  /** The text sent to the database has exactly as many `?` as the statement has
      placeholder tokens. */
  lemma {:induction false} RenderedPlaceholders(stmt: seq<Token>)
    requires PlainText(stmt)
    ensures CountQ(Render(stmt)) == Holes(stmt)
  {
    if stmt != [] {
      var head := match stmt[0] case Text(s) => s case Param => "?";
      assert Render(stmt) == head + Render(stmt[1..]);
      CountQAppend(head, Render(stmt[1..]));
      if stmt[0].Text? {
        CountQPlain(stmt[0].s);
      } else {
        assert CountQ("?") == 1;
      }
      assert PlainText(stmt[1..]) by {
        forall i | 0 <= i < |stmt[1..]| ensures stmt[1..][i].Text? ==> '?' !in stmt[1..][i].s {
          assert stmt[1..][i] == stmt[i + 1];
        }
      }
      RenderedPlaceholders(stmt[1..]);
    }
  }

  lemma PlainTextAppend(a: seq<Token>, b: seq<Token>)
    requires PlainText(a) && PlainText(b)
    ensures PlainText(a + b)
  {
    forall i | 0 <= i < |a + b| ensures (a + b)[i].Text? ==> '?' !in (a + b)[i].s {
      if i < |a| { assert (a + b)[i] == a[i]; } else { assert (a + b)[i] == b[i - |a|]; }
    }
  }

  /** `parts.join(sep)` on token lists. */
  function Join(parts: seq<seq<Token>>, sep: seq<Token>): seq<Token> {
    if parts == [] then []
    else if |parts| == 1 then parts[0]
    else parts[0] + sep + Join(parts[1..], sep)
  }

  /** Total placeholders over a list of parts. */
  function SumHoles(parts: seq<seq<Token>>): nat {
    if parts == [] then 0 else Holes(parts[0]) + SumHoles(parts[1..])
  }

  lemma {:induction false} SumHolesAppend(a: seq<seq<Token>>, b: seq<seq<Token>>)
    ensures SumHoles(a + b) == SumHoles(a) + SumHoles(b)
  {
    if a == [] {
      assert a + b == b;
    } else {
      assert (a + b)[1..] == a[1..] + b;
      SumHolesAppend(a[1..], b);
    }
  }

  /** Joining with a separator that has no placeholder keeps the parts' total. */
  lemma {:induction false} HolesJoin(parts: seq<seq<Token>>, sep: seq<Token>)
    requires Holes(sep) == 0
    ensures Holes(Join(parts, sep)) == SumHoles(parts)
  {
    if |parts| == 1 {
      assert SumHoles(parts[1..]) == 0;
    } else if |parts| > 1 {
      HolesAppend(parts[0] + sep, Join(parts[1..], sep));
      HolesAppend(parts[0], sep);
      HolesJoin(parts[1..], sep);
    }
  }

  lemma {:induction false} PlainTextJoin(parts: seq<seq<Token>>, sep: seq<Token>)
    requires PlainText(sep)
    requires forall i | 0 <= i < |parts| :: PlainText(parts[i])
    ensures PlainText(Join(parts, sep))
  {
    if |parts| > 1 {
      PlainTextJoin(parts[1..], sep);
      PlainTextAppend(parts[0], sep);
      PlainTextAppend(parts[0] + sep, Join(parts[1..], sep));
    }
  }

  /** `?, ?, ..., ?` with n placeholders. */
  function ValuesList(n: nat): (r: seq<Token>)
    decreases n
  {
    if n == 0 then [] else if n == 1 then [Param] else [Param, Text(", ")] + ValuesList(n - 1)
  }

  lemma {:induction false} ValuesListCount(n: nat)
    ensures Holes(ValuesList(n)) == n && PlainText(ValuesList(n))
  {
    if n > 1 {
      ValuesListCount(n - 1);
      HolesAppend([Param, Text(", ")], ValuesList(n - 1));
      PlainTextAppend([Param, Text(", ")], ValuesList(n - 1));
    }
  }

  /** One text token per column name. */
  function NameTokens(names: seq<string>): seq<seq<Token>> {
    seq(|names|, i requires 0 <= i < |names| => [Text(names[i])])
  }

  lemma {:induction false} NameTokensPlain(names: seq<string>)
    requires forall i | 0 <= i < |names| :: '?' !in names[i]
    ensures SumHoles(NameTokens(names)) == 0
    ensures forall i | 0 <= i < |names| :: PlainText(NameTokens(names)[i])
  {
    if names != [] {
      var first: seq<Token> := [Text(names[0])];
      assert first[1..] == [] && Holes(first) == 0;
      assert NameTokens(names)[0] == first;
      assert NameTokens(names)[1..] == NameTokens(names[1..]);
      NameTokensPlain(names[1..]);
    }
  }

  /** `<head><name>, ..., <name>) VALUES (?, ..., ?)`: an INSERT whose head
      text names the table and opens the column list. */
  function InsertInto(head: string, names: seq<string>): seq<Token> {
    [Text(head)] + Join(NameTokens(names), [Text(", ")]) + [Text(") VALUES (")] + ValuesList(|names|) + [Text(")")]
  }

  /** An INSERT over `?`-free names has one placeholder per column, in its
      tokens and in its text. */
  lemma InsertIntoPlaceholders(head: string, names: seq<string>)
    requires '?' !in head
    requires forall i | 0 <= i < |names| :: '?' !in names[i]
    ensures Holes(InsertInto(head, names)) == |names|
    ensures CountQ(Render(InsertInto(head, names))) == |names|
  {
    var parts := NameTokens(names);
    var h, cols, mid, vals, tail := [Text(head)], Join(parts, [Text(", ")]), [Text(") VALUES (")], ValuesList(|names|), [Text(")")];
    NameTokensPlain(names);
    HolesJoin(parts, [Text(", ")]);
    PlainTextJoin(parts, [Text(", ")]);
    ValuesListCount(|names|);
    HolesAppend(h, cols);
    HolesAppend(h + cols, mid);
    HolesAppend(h + cols + mid, vals);
    HolesAppend(h + cols + mid + vals, tail);
    PlainTextAppend(h, cols);
    PlainTextAppend(h + cols, mid);
    PlainTextAppend(h + cols + mid, vals);
    PlainTextAppend(h + cols + mid + vals, tail);
    RenderedPlaceholders(InsertInto(head, names));
  }

  // ----- LIKE -----

  /** SQLite's default LIKE folds ASCII letters only. */
  function Fold(c: char): char {
    if 'A' <= c <= 'Z' then ((c as int) + 32) as char else c
  }

  function FoldAll(s: string): (r: string)
    ensures |r| == |s|
  {
    if s == [] then [] else [Fold(s[0])] + FoldAll(s[1..])
  }

  /** `text LIKE pattern` without an ESCAPE clause: `%` matches any run of
      characters, `_` exactly one, every other character itself up to ASCII
      case. Without `%` the text is as long as the pattern; without either
      wildcard, LIKE is equality after folding. */
  function Like(pattern: string, text: string): (b: bool)
    ensures b && '%' !in pattern ==> |text| == |pattern|
    ensures '%' !in pattern && '_' !in pattern ==> (b <==> FoldAll(pattern) == FoldAll(text))
    decreases |pattern| + |text|
  {
    if pattern == [] then text == []
    else if pattern[0] == '%' then Like(pattern[1..], text) || (text != [] && Like(pattern, text[1..]))
    else if text == [] then false
    else
      FoldAllCons(pattern, text);
      (pattern[0] == '_' || Fold(pattern[0]) == Fold(text[0])) && Like(pattern[1..], text[1..])
  }

  lemma FoldAllCons(p: string, t: string)
    requires p != [] && t != []
    ensures FoldAll(p) == FoldAll(t) <==> Fold(p[0]) == Fold(t[0]) && FoldAll(p[1..]) == FoldAll(t[1..])
  {
    assert FoldAll(p) == [Fold(p[0])] + FoldAll(p[1..]);
    assert FoldAll(t) == [Fold(t[0])] + FoldAll(t[1..]);
    if FoldAll(p) == FoldAll(t) {
      assert FoldAll(p)[0] == FoldAll(t)[0];
      assert FoldAll(p)[1..] == FoldAll(t)[1..];
    }
  }

  /** `needle` occurs in `hay` as a contiguous run. */
  predicate Contains(hay: string, needle: string) {
    exists k | 0 <= k <= |hay| :: needle <= hay[k..]
  }

  lemma {:induction false} LikeTrailingPercent(text: string)
    ensures Like("%", text)
    decreases |text|
  {
    if text != [] { LikeTrailingPercent(text[1..]); }
  }

  /** A wildcard-free pattern followed by `%` matches exactly the texts it
      starts, up to ASCII case. */
  lemma {:induction false} LikePrefix(s: string, text: string)
    requires '%' !in s && '_' !in s
    ensures Like(s + "%", text) <==> FoldAll(s) <= FoldAll(text)
    decreases |s|
  {
    if s == [] {
      assert s + "%" == "%";
      LikeTrailingPercent(text);
    } else {
      var p := s + "%";
      assert p[0] == s[0] && p[1..] == s[1..] + "%";
      assert '%' !in s[1..] && '_' !in s[1..] by {
        assert forall c | c in s[1..] :: c in s;
      }
      LikePrefix(s[1..], if text == [] then [] else text[1..]);
      assert s[0] in s;
      if text != [] {
        assert Like(p, text) <==> Fold(s[0]) == Fold(text[0]) && Like(p[1..], text[1..]);
        var fs, ft := FoldAll(s), FoldAll(text);
        assert fs == [Fold(s[0])] + FoldAll(s[1..]);
        assert ft == [Fold(text[0])] + FoldAll(text[1..]);
        assert fs <= ft <==> fs[0] == ft[0] && fs[1..] <= ft[1..];
      }
    }
  }

  /** `text LIKE '%' || s || '%'` for a search string without wildcards is a
      case-insensitive (ASCII) substring test. */
  lemma {:induction false} LikeSubstring(s: string, text: string)
    requires '%' !in s && '_' !in s
    ensures Like("%" + s + "%", text) <==> Contains(FoldAll(text), FoldAll(s))
    decreases |text|
  {
    var p := "%" + s + "%";
    assert p[0] == '%' && p[1..] == s + "%";
    LikePrefix(s, text);
    assert FoldAll(text)[0..] == FoldAll(text);
    if text == [] {
      assert Like(p, text) <==> Like(s + "%", text);
      if Contains(FoldAll(text), FoldAll(s)) {
        var k :| 0 <= k <= |FoldAll(text)| && FoldAll(s) <= FoldAll(text)[k..];
        assert k == 0;
      }
    } else {
      LikeSubstring(s, text[1..]);
      assert FoldAll(text) == [Fold(text[0])] + FoldAll(text[1..]);
      if Contains(FoldAll(text[1..]), FoldAll(s)) {
        var k :| 0 <= k <= |FoldAll(text[1..])| && FoldAll(s) <= FoldAll(text[1..])[k..];
        assert FoldAll(text)[k + 1..] == FoldAll(text[1..])[k..];
      }
      if Contains(FoldAll(text), FoldAll(s)) && !(FoldAll(s) <= FoldAll(text)) {
        var k :| 0 <= k <= |FoldAll(text)| && FoldAll(s) <= FoldAll(text)[k..];
        assert k != 0;
        assert FoldAll(text)[k..] == FoldAll(text[1..])[k - 1..];
      }
    }
  }

  // ----- arguments the stores bind and read back -----

  function TextArg(x: Js<string>): Arg {
    match x
    case Undefined => ArgUndefined
    case Null => ArgNull
    case Val(s) => ArgText(s)
  }

  function RealArg(x: Js<real>): Arg {
    match x
    case Undefined => ArgUndefined
    case Null => ArgNull
    case Val(v) => ArgReal(v)
  }

  function OptTextArg(o: Option<string>): Arg {
    match o
    case None => ArgNull
    case Some(s) => ArgText(s)
  }

  function OptRealArg(o: Option<real>): Arg {
    match o
    case None => ArgNull
    case Some(v) => ArgReal(v)
  }

  function TextOf(a: Arg): string {
    if a.ArgText? then a.text else ""
  }

  function OptTextOf(a: Arg): Option<string> {
    if a.ArgText? then Some(a.text) else None
  }

  function OptRealOf(a: Arg): Option<real> {
    if a.ArgReal? then Some(a.r) else None
  }

  function PatchText(old_: Option<string>, x: Js<string>): Option<string> {
    match x
    case Undefined => old_
    case Null => None
    case Val(s) => Some(s)
  }

  function PatchReal(old_: Option<real>, x: Js<real>): Option<real> {
    match x
    case Undefined => old_
    case Null => None
    case Val(v) => Some(v)
  }

  // ----- building statements -----

  /** `sql += text + "?"`. */
  function AddCondition(stmt: seq<Token>, text: string): (r: seq<Token>)
    requires PlainText(stmt) && '?' !in text
    ensures r == stmt + [Text(text), Param]
    ensures PlainText(r) && Holes(r) == Holes(stmt) + 1
  {
    HolesAppend(stmt, [Text(text), Param]);
    PlainTextAppend(stmt, [Text(text), Param]);
    assert [Text(text), Param][1..] == [Param] && [Param][1..] == [];
    assert Holes([Text(text), Param]) == 1;
    stmt + [Text(text), Param]
  }

  /** `sql += text` for text without placeholders. */
  function AddText(stmt: seq<Token>, text: string): (r: seq<Token>)
    requires PlainText(stmt) && '?' !in text
    ensures r == stmt + [Text(text)]
    ensures PlainText(r) && Holes(r) == Holes(stmt)
  {
    HolesAppend(stmt, [Text(text)]);
    PlainTextAppend(stmt, [Text(text)]);
    assert Holes([Text(text)]) == 0;
    stmt + [Text(text)]
  }

}
