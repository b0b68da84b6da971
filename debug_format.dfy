/** Rust's `{:?}` (Debug) rendering of a `Vec<String>` whose elements need no
    escaping, e.g. `["alice", "bob"]`, and a reader for that text that shows the
    rendering loses nothing: every element can be read back, in order. */
module DebugFormat {

  datatype Option<T> = None | Some(value: T)

  /** No element character is a double quote, so Debug prints it unescaped
      and the closing quote is the first quote after the opening one. */
  predicate QuoteFree(s: string) {
    forall i :: 0 <= i < |s| ==> s[i] != '"'
  }

  /** Debug rendering of one string that needs no escaping. */
  function Quote(s: string): string {
    "\"" + s + "\""
  }

  /** The elements after the first, each preceded by the separator ", ". */
  function JoinTail(items: seq<string>): string {
    if items == [] then "" else ", " + Quote(items[0]) + JoinTail(items[1..])
  }

  /** The quoted elements separated by ", ". */
  function Join(items: seq<string>): string {
    if items == [] then "" else Quote(items[0]) + JoinTail(items[1..])
  }

  /** `format!("{:?}", items)` for a vector of strings. */
  function Render(items: seq<string>): (s: string)
    ensures |s| >= 2 && s[0] == '[' && s[|s| - 1] == ']'
    ensures s == "[]" <==> items == []
  {
    "[" + Join(items) + "]"
  }

  /** Length of the longest quote-free prefix of s. */
  function NameLength(s: string): (n: nat)
    ensures n <= |s|
    ensures QuoteFree(s[..n])
    ensures n < |s| ==> s[n] == '"'
  {
    if s == [] || s[0] == '"' then 0 else 1 + NameLength(s[1..])
  }

  /** Reads `"name"` from the front of s; yields the name and the text after
      the closing quote. */
  function ParseQuoted(s: string): (r: Option<(string, string)>)
    ensures r.Some? ==> |r.value.1| < |s| && QuoteFree(r.value.0)
  {
    if s == [] || s[0] != '"' then None
    else
      var n := NameLength(s[1..]);
      if 1 + n < |s| then
        assert s[1..1 + n] == s[1..][..n];
        Some((s[1..1 + n], s[2 + n..]))
      else None
  }

  /** Reads a sequence of `, "name"` items up to the end of s. */
  function ParseTail(s: string): Option<seq<string>>
    decreases |s|
  {
    if s == [] then Some([])
    else if |s| < 2 || s[..2] != ", " then None
    else
      match ParseQuoted(s[2..])
      case None => None
      case Some((name, rest)) =>
        match ParseTail(rest)
        case None => None
        case Some(names) => Some([name] + names)
  }

  /** Reads the text between the brackets of a rendered vector. */
  function ParseItems(s: string): Option<seq<string>> {
    if s == [] then Some([])
    else
      match ParseQuoted(s)
      case None => None
      case Some((name, rest)) =>
        match ParseTail(rest)
        case None => None
        case Some(names) => Some([name] + names)
  }

  /** Reads a rendered vector of strings back. */
  function Parse(s: string): Option<seq<string>> {
    if |s| >= 2 && s[0] == '[' && s[|s| - 1] == ']' then ParseItems(s[1..|s| - 1]) else None
  }

  lemma NameLengthOfQuoted(name: string, rest: string)
    requires QuoteFree(name)
    ensures NameLength(name + "\"" + rest) == |name|
  {
    var s := name + "\"" + rest;
    assert s[|name|] == '"';
    assert forall i :: 0 <= i < |name| ==> s[i] == name[i];
  }

  lemma ParseQuotedOfQuote(name: string, rest: string)
    requires QuoteFree(name)
    ensures ParseQuoted(Quote(name) + rest) == Some((name, rest))
  {
    var s := Quote(name) + rest;
    assert s[1..] == name + "\"" + rest;
    NameLengthOfQuoted(name, rest);
    assert s[1..1 + |name|] == name;
    assert s[2 + |name|..] == rest;
  }

  lemma {:induction false} ParseTailOfJoinTail(items: seq<string>)
    requires forall i :: 0 <= i < |items| ==> QuoteFree(items[i])
    ensures ParseTail(JoinTail(items)) == Some(items)
  {
    if items != [] {
      var s := JoinTail(items);
      var rest := JoinTail(items[1..]);
      assert s[..2] == ", ";
      assert s[2..] == Quote(items[0]) + rest;
      ParseQuotedOfQuote(items[0], rest);
      ParseTailOfJoinTail(items[1..]);
      assert [items[0]] + items[1..] == items;
    }
  }

  lemma ParseItemsOfJoin(items: seq<string>)
    requires forall i :: 0 <= i < |items| ==> QuoteFree(items[i])
    ensures ParseItems(Join(items)) == Some(items)
  {
    if items != [] {
      var rest := JoinTail(items[1..]);
      ParseQuotedOfQuote(items[0], rest);
      ParseTailOfJoinTail(items[1..]);
      assert [items[0]] + items[1..] == items;
    }
  }

  /** Rendering is invertible: the rendered text names exactly the elements,
      in order. */
  lemma ParseRender(items: seq<string>)
    requires forall i :: 0 <= i < |items| ==> QuoteFree(items[i])
    ensures Parse(Render(items)) == Some(items)
  {
    var s := Render(items);
    assert s[1..|s| - 1] == Join(items);
    ParseItemsOfJoin(items);
  }
}
