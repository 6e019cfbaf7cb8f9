/**
 * The string built-ins the endpoint explorer relies on: `toLowerCase`,
 * `includes`, `trim`, `split('?')` and the `\n` to `<br>` replacement.
 * Strings are sequences of Unicode scalar values.
 */
module JsText {
  import opened Wrappers

  // ---------------------------------------------------------------------------
  // toLowerCase, on the ASCII letters

  function LowerChar(c: char): char {
    if 'A' <= c <= 'Z' then (c as int + 32) as char else c
  }

  /** `s.toLowerCase()`, restricted to the ASCII case mapping. */
  function Lower(s: string): string {
    seq(|s|, i requires 0 <= i < |s| => LowerChar(s[i]))
  }

  /** Lower-casing leaves no ASCII capital behind and changes only ASCII capitals. */
  lemma LowerFacts(s: string)
    ensures |Lower(s)| == |s|
    ensures forall i :: 0 <= i < |s| ==> !('A' <= Lower(s)[i] <= 'Z')
    ensures forall i :: 0 <= i < |s| && !('A' <= s[i] <= 'Z') ==> Lower(s)[i] == s[i]
    ensures forall i :: 0 <= i < |s| && 'A' <= s[i] <= 'Z' ==> Lower(s)[i] as int == s[i] as int + 32
  {
  }

  // ---------------------------------------------------------------------------
  // includes

  /** `t` occurs in `s` starting at position `i`. */
  predicate OccursAt(s: string, t: string, i: int) {
    0 <= i && i + |t| <= |s| && s[i..i + |t|] == t
  }

  /** `s.includes(t)`: try every start position from the left. */
  function Includes(s: string, t: string): (r: bool)
    ensures r <==> exists i :: OccursAt(s, t, i)
    decreases |s|
  {
    if t <= s then
      assert OccursAt(s, t, 0);
      true
    else if s == [] then
      false
    else
      var r := Includes(s[1..], t);
      assert forall i :: OccursAt(s[1..], t, i) ==> OccursAt(s, t, i + 1);
      assert forall i :: 1 <= i && OccursAt(s, t, i) ==> OccursAt(s[1..], t, i - 1);
      r
  }

  /** Every string includes the empty string; nothing longer than `s` is included in it. */
  lemma IncludesBounds(s: string, t: string)
    ensures Includes(s, "")
    ensures |t| > |s| ==> !Includes(s, t)
    ensures Includes(s, s)
  {
    assert OccursAt(s, "", 0);
    assert OccursAt(s, s, 0);
  }

  // ---------------------------------------------------------------------------
  // trim

  /** WhiteSpace and LineTerminator (sections 12.2 and 12.3 of ECMA-262). */
  predicate IsJsWhitespace(c: char) {
    var u := c as int;
    (0x09 <= u <= 0x0D) || u == 0x20 || u == 0xA0 || u == 0x1680 || (0x2000 <= u <= 0x200A) ||
    u == 0x2028 || u == 0x2029 || u == 0x202F || u == 0x205F || u == 0x3000 || u == 0xFEFF
  }

  /** The position of the first non-whitespace character, `|s|` if there is none. */
  function TrimStart(s: string): (i: nat)
    ensures i <= |s|
    ensures forall k :: 0 <= k < i ==> IsJsWhitespace(s[k])
    ensures i < |s| ==> !IsJsWhitespace(s[i])
  {
    if s == [] || !IsJsWhitespace(s[0]) then 0 else 1 + TrimStart(s[1..])
  }

  /** The position just past the last non-whitespace character, `0` if there is none. */
  function TrimEnd(s: string): (j: nat)
    ensures j <= |s|
    ensures forall k :: j <= k < |s| ==> IsJsWhitespace(s[k])
    ensures 0 < j ==> !IsJsWhitespace(s[j - 1])
  {
    if s == [] || !IsJsWhitespace(s[|s| - 1]) then |s| else TrimEnd(s[..|s| - 1])
  }

  /** `s.trim()`. */
  function Trim(s: string): (r: string)
    ensures r != [] ==> !IsJsWhitespace(r[0]) && !IsJsWhitespace(r[|r| - 1])
  {
    var i := TrimStart(s);
    var j := TrimEnd(s);
    if i < j then s[i..j] else ""
  }

  /** `s.trim()` is the part of `s` left after cutting whitespace from both ends. */
  lemma TrimIsInfix(s: string)
    ensures exists i, j ::
              (0 <= i <= j <= |s| && Trim(s) == s[i..j] &&
               (forall k :: 0 <= k < i ==> IsJsWhitespace(s[k])) &&
               (forall k :: j <= k < |s| ==> IsJsWhitespace(s[k])))
  {
    var i := TrimStart(s);
    var j := TrimEnd(s);
    if i < j {
      assert Trim(s) == s[i..j];
    } else {
      assert Trim(s) == s[i..i];
    }
  }

  /** A value is blank (`!s.trim()`) exactly when every character is whitespace. */
  predicate Blank(s: string) {
    Trim(s) == ""
  }

  lemma BlankIff(s: string)
    ensures Blank(s) <==> forall k :: 0 <= k < |s| ==> IsJsWhitespace(s[k])
  {
    var i := TrimStart(s);
    var j := TrimEnd(s);
    if i < j {
      assert !IsJsWhitespace(s[i]);
      assert Trim(s) == s[i..j] && |Trim(s)| > 0;
    }
  }

  // ---------------------------------------------------------------------------
  // split('?')

  /** The position of the first `c` in `s`. */
  function IndexOf<T(==)>(s: seq<T>, c: T): (r: Option<nat>)
    ensures r.None? <==> c !in s
    ensures r.Some? ==> r.value < |s| && s[r.value] == c && c !in s[..r.value]
  {
    if s == [] then None
    else if s[0] == c then Some(0)
    else match IndexOf(s[1..], c)
      case None => None
      case Some(i) =>
        assert s[..i + 1] == [s[0]] + s[1..][..i];
        Some(i + 1)
  }

  /** `s.split(c)[0]`: everything before the first `c`, all of `s` if there is none. */
  function BeforeFirst(s: string, c: char): string {
    match IndexOf(s, c)
    case None => s
    case Some(i) => s[..i]
  }

  /** `s.split(c)[1]`: the text between the first and second `c`; `undefined` without a `c`. */
  function SecondField(s: string, c: char): Option<string> {
    match IndexOf(s, c)
    case None => None
    case Some(i) => Some(BeforeFirst(s[i + 1..], c))
  }

  /** The first field is a `c`-free prefix, followed in `s` by the first `c` if there is one. */
  lemma FirstField(s: string, c: char)
    ensures c !in BeforeFirst(s, c) && BeforeFirst(s, c) <= s
    ensures c !in s <==> SecondField(s, c).None?
    ensures c !in s ==> BeforeFirst(s, c) == s
    ensures c in s ==> BeforeFirst(s, c) + [c] <= s
  {
    match IndexOf(s, c)
    case None =>
    case Some(i) =>
      assert s[..i] + [c] == s[..i + 1];
  }

  /**
   * With a `c` present, the second field follows the first `c`; it is `c`-free
   * and ends at the next `c` or at the end of `s`.
   */
  lemma SecondFieldFacts(s: string, c: char)
    requires c in s
    ensures SecondField(s, c).Some?
    ensures var f := BeforeFirst(s, c);
            var g := SecondField(s, c).value;
            c !in g && f + [c] + g <= s &&
            (|f| + 1 + |g| == |s| || s[|f| + 1 + |g|] == c)
  {
    var i := IndexOf(s, c).value;
    var rest := s[i + 1..];
    FirstField(rest, c);
    var g := BeforeFirst(rest, c);
    assert s[..i] + [c] + g == s[..i + 1 + |g|];
    assert |g| == |rest| || rest[|g|] == c;
  }

  // ---------------------------------------------------------------------------
  // replace(/\n/g, '<br>')

  function ReplaceNewlines(s: string): (r: string)
    ensures '\n' !in r
    ensures '\n' !in s ==> r == s
  {
    if s == [] then ""
    else (if s[0] == '\n' then "<br>" else [s[0]]) + ReplaceNewlines(s[1..])
  }

  /** The replacement works character by character: a line feed becomes `<br>`, any other character stays. */
  lemma ReplaceNewlinesChar(c: char)
    ensures c == '\n' ==> ReplaceNewlines([c]) == "<br>"
    ensures c != '\n' ==> ReplaceNewlines([c]) == [c]
  {
    assert [c][1..] == [];
  }

  /** Replacing in a concatenation is concatenating the replacements. */
  lemma {:induction false} ReplaceNewlinesAppend(a: string, b: string)
    ensures ReplaceNewlines(a + b) == ReplaceNewlines(a) + ReplaceNewlines(b)
  {
    if a != [] {
      assert (a + b)[0] == a[0] && (a + b)[1..] == a[1..] + b;
      ReplaceNewlinesAppend(a[1..], b);
    } else {
      assert a + b == b;
    }
  }
}
