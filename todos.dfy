/** The task record of the to-do list and the text handling that guards its creation. */
module Todos {

  datatype Option<+T> = None | Some(value: T)

  /** The three priorities a task can be given. */
  datatype Priority = Low | Medium | High

  /** A calendar date chosen in the date picker, kept as the instant it denotes. */
  datatype Date = Date(epochMillis: int)

  /** One task. The identifier is numeric, as in the component's own record type. */
  datatype Todo = Todo(
    id: nat,
    text: string,
    completed: bool,
    priority: Priority,
    category: string,
    dueDate: Option<Date>)

  /** The categories offered by the form, in the order the selector lists them. */
  const Categories: seq<string> := ["İş", "Kişisel", "Alışveriş", "Sağlık", "Eğitim"]

  /** The code points that ECMAScript's String.prototype.trim removes:
      WhiteSpace (TAB, VT, FF, ZWNBSP and every space separator) and LineTerminator. */
  predicate IsWhitespace(c: char) {
    var k := c as int;
    || k == 0x09 || k == 0x0A || k == 0x0B || k == 0x0C || k == 0x0D
    || k == 0x20 || k == 0xA0 || k == 0x1680 || 0x2000 <= k <= 0x200A
    || k == 0x2028 || k == 0x2029 || k == 0x202F || k == 0x205F
    || k == 0x3000 || k == 0xFEFF
  }

  /** Among the ASCII characters, `trim` removes exactly the space and TAB, LF, VT, FF, CR;
      beyond ASCII, nothing above the byte order mark U+FEFF. */
  lemma AsciiWhitespace(c: char)
    ensures c as int < 0x80 ==> (IsWhitespace(c) <==> c == ' ' || 0x09 <= c as int <= 0x0D)
    ensures IsWhitespace(c) ==> c as int <= 0xFEFF
  {
  }

  /** A string made of whitespace only (the empty string included). */
  ghost predicate IsBlank(s: string) {
    forall k :: 0 <= k < |s| ==> IsWhitespace(s[k])
  }

  /** Drops the leading whitespace: the result is the longest suffix that does not start with it. */
  function TrimStart(s: string): (r: string)
    ensures |r| <= |s| && r == s[|s| - |r|..]
    ensures forall k :: 0 <= k < |s| - |r| ==> IsWhitespace(s[k])
    ensures r == [] || !IsWhitespace(r[0])
  {
    if s != [] && IsWhitespace(s[0]) then TrimStart(s[1..]) else s
  }

  /** Drops the trailing whitespace: the result is the longest prefix that does not end with it. */
  function TrimEnd(s: string): (r: string)
    ensures |r| <= |s| && r == s[..|r|]
    ensures forall k :: |r| <= k < |s| ==> IsWhitespace(s[k])
    ensures r == [] || !IsWhitespace(r[|r| - 1])
  {
    if s != [] && IsWhitespace(s[|s| - 1]) then TrimEnd(s[..|s| - 1]) else s
  }

  /** `r` is the window of `s` starting at `lead` that trimming keeps: it neither starts nor ends
      with whitespace, and everything of `s` outside it is whitespace. */
  ghost predicate TrimmedWindow(s: string, lead: int, r: string) {
    && 0 <= lead && lead + |r| <= |s| && r == s[lead..lead + |r|]
    && (r == [] || (!IsWhitespace(r[0]) && !IsWhitespace(r[|r| - 1])))
    && (forall k :: 0 <= k < lead ==> IsWhitespace(s[k]))
    && (forall k :: lead + |r| <= k < |s| ==> IsWhitespace(s[k]))
  }

  /** String.prototype.trim: the window of `s` left after removing whitespace at both ends. */
  function Trim(s: string): (r: string)
    ensures TrimmedWindow(s, |s| - |TrimStart(s)|, r)
  {
    TrimWindow(s);
    TrimEnd(TrimStart(s))
  }

  /** Trimming the start and then the end keeps the trimmed window of `s`. */
  lemma TrimWindow(s: string)
    ensures TrimmedWindow(s, |s| - |TrimStart(s)|, TrimEnd(TrimStart(s)))
  {
    ComposeWindow(s, TrimStart(s), TrimEnd(TrimStart(s)));
  }

  /** A suffix `t` of `s` with only whitespace before it and not starting with whitespace, cut down
      to a prefix `r` with only whitespace after it and not ending with whitespace, is the trimmed
      window of `s`. */
  lemma ComposeWindow(s: string, t: string, r: string)
    requires |t| <= |s| && t == s[|s| - |t|..]
    requires forall k :: 0 <= k < |s| - |t| ==> IsWhitespace(s[k])
    requires t == [] || !IsWhitespace(t[0])
    requires |r| <= |t| && r == t[..|r|]
    requires forall k :: |r| <= k < |t| ==> IsWhitespace(t[k])
    requires r == [] || !IsWhitespace(r[|r| - 1])
    ensures TrimmedWindow(s, |s| - |t|, r)
  {
    var lead := |s| - |t|;
    assert r != [] ==> r[0] == t[0];
    assert r == s[lead..lead + |r|];
    forall k | lead + |r| <= k < |s| ensures IsWhitespace(s[k]) {
      assert s[k] == t[k - lead];
    }
  }

  /** `input.trim()` is falsy exactly when the input is blank. */
  lemma {:induction false} TrimEmptyIffBlank(s: string)
    ensures Trim(s) == [] <==> IsBlank(s)
  {
    if Trim(s) != [] {
      var lead := |s| - |TrimStart(s)|;
      assert s[lead] == Trim(s)[0];
    }
  }

  /** Trimming twice gives what trimming once gives. */
  lemma TrimIdempotent(s: string)
    ensures Trim(Trim(s)) == Trim(s)
  {
    var r := Trim(s);
    if r != [] {
      assert TrimStart(r) == r;
      assert TrimEnd(r) == r;
    }
  }

  /** No identifier occurs twice in the list. */
  ghost predicate DistinctIds(s: seq<Todo>) {
    forall i, j :: 0 <= i < j < |s| ==> s[i].id != s[j].id
  }

  /** `id` is the identifier of no task in the list. */
  predicate FreshId(s: seq<Todo>, id: nat) {
    forall i :: 0 <= i < |s| ==> s[i].id != id
  }

  /** Some task in the list has identifier `id`. */
  predicate HasId(s: seq<Todo>, id: nat) {
    exists i :: 0 <= i < |s| && s[i].id == id
  }

  /** Appending a task whose identifier is fresh keeps the identifiers distinct. */
  lemma AppendFreshKeepsDistinct(s: seq<Todo>, t: Todo)
    requires DistinctIds(s) && FreshId(s, t.id)
    ensures DistinctIds(s + [t])
  {
  }
}
