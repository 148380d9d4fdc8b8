/**
 * Character classes, ASCII case mapping and small string scanners that the
 * MarkPlot regular expressions are built from.
 *
 * Strings are `seq<char>`; a `char` is one Unicode scalar value, so a position
 * is a code-point index.
 */
module Text {

  datatype Option<T> = None | Some(value: T)

  /** `\w` of a JavaScript regular expression (ASCII only, also under the `u` flag). */
  predicate IsWordChar(c: char) {
    ('a' <= c <= 'z') || ('A' <= c <= 'Z') || ('0' <= c <= '9') || c == '_'
  }

  predicate IsAsciiDigit(c: char) {
    '0' <= c <= '9'
  }

  predicate IsAsciiUpper(c: char) {
    'A' <= c <= 'Z'
  }

  predicate IsAsciiLower(c: char) {
    'a' <= c <= 'z'
  }

  /** `[\w:!?]`: a character of a modifier name. */
  predicate IsModifierChar(c: char) {
    IsWordChar(c) || c == ':' || c == '!' || c == '?'
  }

  /**
   * `\p{L}`, restricted to the blocks this model knows: ASCII, Latin-1,
   * Latin Extended-A/B, IPA and spacing modifier letters, basic Greek,
   * Cyrillic and the CJK unified ideographs.
   */
  predicate IsLetter(c: char) {
    ('a' <= c <= 'z') || ('A' <= c <= 'Z')
    || c == '\U{AA}' || c == '\U{B5}' || c == '\U{BA}'
    || ('\U{C0}' <= c <= '\U{D6}') || ('\U{D8}' <= c <= '\U{F6}') || ('\U{F8}' <= c <= '\U{2C1}')
    || ('\U{391}' <= c <= '\U{3A1}') || ('\U{3A3}' <= c <= '\U{3C9}')
    || ('\U{400}' <= c <= '\U{481}') || ('\U{48A}' <= c <= '\U{52F}')
    || ('\U{4E00}' <= c <= '\U{9FFF}')
  }

  /** `\p{N}`, restricted to ASCII, Latin-1, Arabic-Indic, Devanagari and full-width digits. */
  predicate IsNumber(c: char) {
    ('0' <= c <= '9')
    || c == '\U{B2}' || c == '\U{B3}' || c == '\U{B9}' || ('\U{BC}' <= c <= '\U{BE}')
    || ('\U{660}' <= c <= '\U{669}') || ('\U{6F0}' <= c <= '\U{6F9}')
    || ('\U{966}' <= c <= '\U{96F}') || ('\U{FF10}' <= c <= '\U{FF19}')
  }

  /** `[\p{L}\p{N}_]`: a character of a visible entity name. */
  predicate IsNameChar(c: char) {
    IsLetter(c) || IsNumber(c) || c == '_'
  }

  /** `\s` of a JavaScript regular expression; `String.prototype.trim` strips the same set. */
  predicate IsSpace(c: char) {
    ('\t' <= c <= '\r') || c == ' ' || c == '\U{A0}' || c == '\U{1680}'
    || ('\U{2000}' <= c <= '\U{200A}') || c == '\U{2028}' || c == '\U{2029}'
    || c == '\U{202F}' || c == '\U{205F}' || c == '\U{3000}' || c == '\U{FEFF}'
  }

  /** The characters that end a line for `^`, `$` and `.` in a JavaScript regular expression. */
  predicate IsLineTerminator(c: char) {
    c == '\n' || c == '\r' || c == '\U{2028}' || c == '\U{2029}'
  }

  lemma WordCharIsNameAndModifierChar(c: char)
    requires IsWordChar(c)
    ensures IsNameChar(c) && IsModifierChar(c)
  {
  }

  function ToUpperChar(c: char): char {
    if IsAsciiLower(c) then (c as int - 32) as char else c
  }

  function ToLowerChar(c: char): char {
    if IsAsciiUpper(c) then (c as int + 32) as char else c
  }

  /** `String.prototype.toUpperCase`, for the ASCII letters. */
  function ToUpper(s: string): string {
    seq(|s|, i requires 0 <= i < |s| => ToUpperChar(s[i]))
  }

  /** `String.prototype.toLowerCase`, for the ASCII letters. */
  function ToLower(s: string): string {
    seq(|s|, i requires 0 <= i < |s| => ToLowerChar(s[i]))
  }

  /** `s.replace(/a/g, b)` for one character `a`. */
  function ReplaceAll(s: string, a: char, b: char): string {
    seq(|s|, i requires 0 <= i < |s| => if s[i] == a then b else s[i])
  }

  /** `s.replace(a, b)` with a one-character string `a`: only the first occurrence changes. */
  function ReplaceFirst(s: string, a: char, b: char): (r: string)
    ensures |r| == |s|
    ensures forall i :: 0 <= i < |s| ==> r[i] == if s[i] == a && a !in s[..i] then b else s[i]
  {
    FindSpec(s, a);
    match Find(s, a)
    case NotFound => s
    case FoundAt(k) => s[..k] + [b] + s[k + 1..]
  }

  lemma ConcatAssoc<T>(a: seq<T>, b: seq<T>, c: seq<T>)
    ensures a + (b + c) == (a + b) + c
  {
  }

  /** The step of an accumulating scan: `done + todo == whole` stays true when a piece moves from `todo` to `done`. */
  lemma AccumulateStep<T>(done: seq<T>, piece: seq<T>, todo: seq<T>, rest: seq<T>, whole: seq<T>)
    requires done + todo == whole && todo == piece + rest
    ensures (done + piece) + rest == whole
  {
    ConcatAssoc(done, piece, rest);
  }

  /** The character classes the scanners below run over. */
  datatype CharClass = NameChars | ModifierChars | Hashes | Spaces | LineChars | AtSigns

  predicate InClass(k: CharClass, c: char) {
    match k
    case NameChars => IsNameChar(c)
    case ModifierChars => IsModifierChar(c)
    case Hashes => c == '#'
    case Spaces => IsSpace(c)
    case LineChars => !IsLineTerminator(c)
    case AtSigns => c == '@'
  }

  /** Length of the longest prefix of `s` made of class-`k` characters (a greedy `[k]*`). */
  function Run(s: string, k: CharClass): (n: nat)
    ensures n <= |s|
  {
    if s != [] && InClass(k, s[0]) then 1 + Run(s[1..], k) else 0
  }

  /** The run is made of class-`k` characters and cannot be extended. */
  lemma {:induction false} RunSpec(s: string, k: CharClass)
    ensures forall j :: 0 <= j < Run(s, k) ==> InClass(k, s[j])
    ensures Run(s, k) == |s| || !InClass(k, s[Run(s, k)])
  {
    if s != [] && InClass(k, s[0]) {
      RunSpec(s[1..], k);
    }
  }

  /** A run of class-`k` characters followed by anything else is read back with its length. */
  lemma {:induction false} RunOf(a: string, b: string, k: CharClass)
    requires forall j :: 0 <= j < |a| ==> InClass(k, a[j])
    requires b == [] || !InClass(k, b[0])
    ensures Run(a + b, k) == |a|
  {
    if a == [] {
      assert a + b == b;
    } else {
      assert (a + b)[0] == a[0];
      assert (a + b)[1..] == a[1..] + b;
      RunOf(a[1..], b, k);
    }
  }

  datatype Found = NotFound | FoundAt(index: nat)

  /** Index of the first `c` in `s`: where `[^c]*c` stops. */
  function Find(s: string, c: char): (r: Found)
    ensures r.FoundAt? ==> r.index < |s| && s[r.index] == c
  {
    if s == [] then NotFound
    else if s[0] == c then FoundAt(0)
    else match Find(s[1..], c)
      case NotFound => NotFound
      case FoundAt(j) => FoundAt(j + 1)
  }

  /** `Find` stops at the first `c`, and finds nothing only when there is none. */
  lemma {:induction false} FindSpec(s: string, c: char)
    ensures Find(s, c).FoundAt? ==> forall j :: 0 <= j < Find(s, c).index ==> s[j] != c
    ensures Find(s, c).NotFound? ==> forall j :: 0 <= j < |s| ==> s[j] != c
  {
    if s != [] && s[0] != c {
      FindSpec(s[1..], c);
    }
  }

  /** A text without `c` followed by `c` is found up to that `c`. */
  lemma {:induction false} FindOf(a: string, c: char, b: string)
    requires c !in a
    ensures Find(a + ([c] + b), c) == FoundAt(|a|)
  {
    if a == [] {
      assert a + ([c] + b) == [c] + b;
    } else {
      assert (a + ([c] + b))[0] == a[0];
      assert (a + ([c] + b))[1..] == a[1..] + ([c] + b);
      assert a[0] in a;
      FindOf(a[1..], c, b);
    }
  }

  /** Drops the leading characters of class `\s`. */
  function TrimStart(s: string): (r: string)
    ensures |r| <= |s| && r == s[|s| - |r|..]
    ensures r == [] || !IsSpace(r[0])
    ensures forall i :: 0 <= i < |s| - |r| ==> IsSpace(s[i])
  {
    if s != [] && IsSpace(s[0]) then TrimStart(s[1..]) else s
  }

  /** Drops the trailing characters of class `\s`. */
  function TrimEnd(s: string): (r: string)
    ensures |r| <= |s| && r == s[..|r|]
    ensures r == [] || !IsSpace(r[|r| - 1])
    ensures forall i :: |r| <= i < |s| ==> IsSpace(s[i])
  {
    if s != [] && IsSpace(s[|s| - 1]) then TrimEnd(s[..|s| - 1]) else s
  }

  /** `String.prototype.trim`. */
  function Trim(s: string): string {
    TrimEnd(TrimStart(s))
  }

  /** The set `{a, a + 1, ..., b - 1}`. */
  function Range(a: nat, b: nat): (r: set<nat>)
    ensures forall j :: j in r <==> a <= j < b
    decreases b - a
  {
    if a < b then {a} + Range(a + 1, b) else {}
  }
}
