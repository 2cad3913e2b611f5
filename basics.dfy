/** Value types and string helpers shared by the server and the client model:
    optional values, HTTP-style replies, callers, and the few JavaScript string
    operations the handlers rely on (truthiness, `split`, `trim`, ASCII case). */
module Basics {

  datatype Option<+T> = None | Some(value: T)

  /** The reply of a request handler: a success status with the body it sends, or
      an error status with the text of its `{ error }` body. */
  datatype Response<+T> = Done(code: nat, value: T) | Failed(code: nat, message: string)

  type UserId = nat

  /** Roles known to the authentication layer; `OtherRole` is any other value. */
  datatype Role = Teacher | Student | OtherRole

  /** The authenticated caller (`req.user`). */
  datatype User = User(id: UserId, role: Role)

  /** JavaScript truthiness of an optional text field: present and not "". */
  predicate Given(s: Option<string>) {
    s.Some? && s.value != ""
  }

  /** JavaScript truthiness of an optional id: present (ids are never falsy once given). */
  predicate HasId(x: Option<nat>) {
    x.Some?
  }

  /** `s || d` for an optional text field. */
  function OrElse(s: Option<string>, d: string): (r: string)
    ensures Given(s) ==> r == s.value
    ensures !Given(s) ==> r == d
    ensures d != "" ==> r != ""
  {
    if Given(s) then s.value else d
  }

  /** `s || null` for an optional text field. */
  function Truthy(s: Option<string>): (r: Option<string>)
    ensures r.Some? <==> Given(s)
    ensures r.Some? ==> r == s && r.value != ""
  {
    if Given(s) then s else None
  }

  /** A field a request body sends replaces the stored one; an absent one keeps it. */
  function Pick<T>(sent: Option<T>, stored: T): (r: T)
    ensures sent.None? ==> r == stored
    ensures sent.Some? ==> r == sent.value
  {
    if sent.Some? then sent.value else stored
  }

  predicate StartsWith(s: string, prefix: string) {
    |prefix| <= |s| && s[..|prefix|] == prefix
  }

  // ---------------------------------------------------------------------------
  // `String.prototype.split` with a one-character separator, and its inverse.

  /** Joins the pieces with `sep` between neighbours (`Array.prototype.join`). */
  function Join(parts: seq<string>, sep: char): string
    requires |parts| >= 1
  {
    if |parts| == 1 then parts[0] else parts[0] + [sep] + Join(parts[1..], sep)
  }

  /** `s.split(sep)`: the maximal pieces between separators; "" splits into [""]. */
  function Split(s: string, sep: char): (parts: seq<string>)
    ensures |parts| >= 1
    ensures forall i :: 0 <= i < |parts| ==> sep !in parts[i]
    ensures Join(parts, sep) == s
  {
    if s == [] then [""]
    else
      var rest := Split(s[1..], sep);
      if s[0] == sep then [""] + rest
      else
        assert [s[0]] + rest[0] + Join(rest, sep)[|rest[0]|..] == s by {
          JoinHead(rest, sep);
        }
        JoinHeadReplaced(rest, sep, [s[0]] + rest[0]);
        [[s[0]] + rest[0]] + rest[1..]
  }

  lemma JoinHead(parts: seq<string>, sep: char)
    requires |parts| >= 1
    ensures Join(parts, sep) == parts[0] + Join(parts, sep)[|parts[0]|..]
  {
  }

  lemma JoinHeadReplaced(parts: seq<string>, sep: char, head: string)
    requires |parts| >= 1
    ensures Join([head] + parts[1..], sep) == head + Join(parts, sep)[|parts[0]|..]
  {
  }

  /** Splitting undoes joining when no piece holds the separator. */
  lemma {:induction false} SplitJoin(parts: seq<string>, sep: char)
    requires |parts| >= 1
    requires forall i :: 0 <= i < |parts| ==> sep !in parts[i]
    ensures Split(Join(parts, sep), sep) == parts
  {
    if |parts| == 1 {
      SplitNoSep(parts[0], sep);
    } else {
      SplitJoin(parts[1..], sep);
      SplitAtSep(parts[0], Join(parts[1..], sep), sep);
      assert [parts[0]] + parts[1..] == parts;
    }
  }

  lemma SplitNoSep(p: string, sep: char)
    requires sep !in p
    ensures Split(p, sep) == [p]
  {
  }

  /** A separator-free head followed by a separator is split off as one piece. */
  lemma {:induction false} SplitAtSep(p: string, t: string, sep: char)
    requires sep !in p
    ensures Split(p + [sep] + t, sep) == [p] + Split(t, sep)
  {
    var u := p + [sep] + t;
    if p == [] {
      assert u[0] == sep && u[1..] == t;
    } else {
      SplitAtSep(p[1..], t, sep);
      assert u[0] == p[0] && u[1..] == p[1..] + [sep] + t;
      assert [p[0]] + p[1..] == p;
    }
  }

  // ---------------------------------------------------------------------------
  // `String.prototype.trim`.

  /** The white-space and line-terminator characters `trim` removes: tab, vertical
      tab, form feed, space, no-break space, the byte-order mark, the other space
      separators of Unicode, line feed, carriage return and the two Unicode line
      separators. */
  predicate IsSpace(c: char) {
    || c == '\t' || c == '\U{000B}' || c == '\U{000C}' || c == ' ' || c == '\U{00A0}' || c == '\U{FEFF}'
    || c == '\U{1680}' || ('\U{2000}' <= c <= '\U{200A}') || c == '\U{202F}' || c == '\U{205F}' || c == '\U{3000}'
    || c == '\n' || c == '\r' || c == '\U{2028}' || c == '\U{2029}'
  }

  predicate AllSpace(s: string) {
    forall i :: 0 <= i < |s| ==> IsSpace(s[i])
  }

  /** The number of white-space characters `s` starts with. */
  function LeadingSpaces(s: string): (k: nat)
    ensures k <= |s|
    ensures forall i :: 0 <= i < k ==> IsSpace(s[i])
    ensures k < |s| ==> !IsSpace(s[k])
  {
    if s != [] && IsSpace(s[0]) then 1 + LeadingSpaces(s[1..]) else 0
  }

  /** The number of white-space characters `s` ends with. */
  function TrailingSpaces(s: string): (k: nat)
    ensures k <= |s|
    ensures forall i :: |s| - k <= i < |s| ==> IsSpace(s[i])
    ensures k < |s| ==> !IsSpace(s[|s| - 1 - k])
  {
    if s != [] && IsSpace(s[|s| - 1]) then 1 + TrailingSpaces(s[..|s| - 1]) else 0
  }

  /** `s.trim()`: `s` with its leading and trailing white space removed. */
  function Trim(s: string): (r: string)
    ensures r == [] <==> AllSpace(s)
    ensures r != [] ==> !IsSpace(r[0]) && !IsSpace(r[|r| - 1])
    ensures |r| <= |s|
  {
    var a := LeadingSpaces(s);
    if a == |s| then "" else s[a..|s| - TrailingSpaces(s)]
  }

  /** The trimmed text is a slice of `s` with only white space before and after it. */
  lemma TrimStripsEnds(s: string)
    ensures var r := Trim(s);
      exists i :: 0 <= i <= |s| - |r| && s[i..i + |r|] == r && AllSpace(s[..i]) && AllSpace(s[i + |r|..])
  {
    var a := LeadingSpaces(s);
    var r := Trim(s);
    if a == |s| {
      assert s[0..0] == "" && s[0..] == s;
    } else {
      assert s[a..a + |r|] == r;
      assert AllSpace(s[..a]) by {
        forall k | 0 <= k < a ensures IsSpace(s[..a][k]) {
          assert s[..a][k] == s[k];
        }
      }
      var tail := s[a + |r|..];
      assert AllSpace(tail) by {
        forall k | 0 <= k < |tail| ensures IsSpace(tail[k]) {
          assert tail[k] == s[a + |r| + k];
        }
      }
    }
  }

  /** Trimming a trimmed text changes nothing. */
  lemma TrimIdempotent(s: string)
    ensures Trim(Trim(s)) == Trim(s)
  {
  }

  // ---------------------------------------------------------------------------
  // ASCII case mapping (`toUpperCase`, and the case folding of a regular
  // expression's `i` flag, restricted to ASCII letters).

  function UpperChar(c: char): char {
    if 'a' <= c <= 'z' then (c as int - 32) as char else c
  }

  function LowerChar(c: char): char {
    if 'A' <= c <= 'Z' then (c as int + 32) as char else c
  }

  function Upper(s: string): (r: string)
    ensures |r| == |s|
    ensures forall i :: 0 <= i < |s| ==> r[i] == UpperChar(s[i])
  {
    if s == [] then [] else [UpperChar(s[0])] + Upper(s[1..])
  }

  function Lower(s: string): (r: string)
    ensures |r| == |s|
    ensures forall i :: 0 <= i < |s| ==> r[i] == LowerChar(s[i])
  {
    if s == [] then [] else [LowerChar(s[0])] + Lower(s[1..])
  }

  /** Equality of two texts when ASCII letters are compared without regard to case. */
  predicate EqualIgnoringCase(a: string, b: string) {
    Lower(a) == Lower(b)
  }

  /** Finite keys of a map below a bound, in increasing order: the order a store
      holding records under increasing ids would scan them. */
  function KeysBelow<V>(m: map<nat, V>, n: nat): (ks: seq<nat>)
    ensures forall i, j :: 0 <= i < j < |ks| ==> ks[i] < ks[j]
    ensures forall k :: k in ks <==> k in m && k < n
  {
    if n == 0 then []
    else
      var ks := KeysBelow(m, n - 1);
      assert forall i :: 0 <= i < |ks| ==> ks[i] in ks;
      if n - 1 in m then ks + [n - 1] else ks
  }

  /** The ids among `ks` whose records satisfy `keep`, in the order of `ks` (a
      filtered scan of a store). */
  function SelectKeys<V>(m: map<nat, V>, ks: seq<nat>, keep: V -> bool): (r: seq<nat>)
    requires forall k :: k in ks ==> k in m
    requires forall i, j :: 0 <= i < j < |ks| ==> ks[i] < ks[j]
    ensures forall k :: k in r <==> k in ks && keep(m[k])
    ensures forall i, j :: 0 <= i < j < |r| ==> r[i] < r[j]
  {
    if ks == [] then []
    else
      var rest := SelectKeys(m, ks[1..], keep);
      assert forall i :: 0 <= i < |rest| ==> ks[0] < rest[i] by {
        forall i | 0 <= i < |rest| ensures ks[0] < rest[i] {
          assert rest[i] in rest;
          var j :| 0 <= j < |ks[1..]| && ks[1..][j] == rest[i];
          assert ks[j + 1] == rest[i];
        }
      }
      assert forall k :: k in ks <==> k == ks[0] || k in ks[1..] by {
        assert ks == [ks[0]] + ks[1..];
      }
      if keep(m[ks[0]]) then [ks[0]] + rest else rest
  }
}
