/** Values shared by the other modules: outcomes, and what they need of strings and sequences. */
module Text {

  datatype Option<+T> = None | Some(value: T)

  datatype Result<+T, +E> = Success(value: T) | Failure(error: E)

  /** The parts one behind the other. */
  function Joined<T>(parts: seq<seq<T>>): seq<T> {
    if parts == [] then [] else Joined(parts[..|parts| - 1]) + parts[|parts| - 1]
  }

  lemma {:induction false} JoinedCons<T>(x: seq<T>, parts: seq<seq<T>>)
    ensures Joined([x] + parts) == x + Joined(parts)
  {
    if parts == [] {
      assert Joined([x]) == Joined([x][..0]) + x;
    } else {
      JoinedCons(x, parts[..|parts| - 1]);
      assert ([x] + parts)[..|parts|] == [x] + parts[..|parts| - 1];
    }
  }

  predicate HasPrefix(s: string, p: string) { p <= s }

  predicate HasSuffix(s: string, t: string) { |t| <= |s| && s[|s| - |t|..] == t }

  predicate HasSubstring(s: string, sub: string) {
    exists i :: 0 <= i <= |s| && HasPrefix(s[i..], sub)
  }

  /** `mid` stands in `s` between `a` and `b`. */
  predicate IsMadeOf(s: string, a: string, mid: string, b: string) { s == a + mid + b }

  lemma PrefixMeaning(s: string, p: string)
    ensures HasPrefix(s, p) <==> exists b :: IsMadeOf(s, "", p, b)
  {
    if HasPrefix(s, p) {
      assert IsMadeOf(s, "", p, s[|p|..]);
    }
  }

  lemma SuffixMeaning(s: string, t: string)
    ensures HasSuffix(s, t) <==> exists a :: IsMadeOf(s, a, t, "")
  {
    if HasSuffix(s, t) {
      assert IsMadeOf(s, s[..|s| - |t|], t, "");
    }
    if a :| IsMadeOf(s, a, t, "") {
      assert s == a + t && s[|s| - |t|..] == t;
    }
  }

  lemma SubstringMeaning(s: string, sub: string)
    ensures HasSubstring(s, sub) <==> exists a, b :: IsMadeOf(s, a, sub, b)
  {
    if i :| 0 <= i <= |s| && HasPrefix(s[i..], sub) {
      assert IsMadeOf(s, s[..i], sub, s[i + |sub|..]);
    }
    if a, b :| IsMadeOf(s, a, sub, b) {
      assert s[|a|..] == sub + b;
    }
  }

  predicate IsSpace(c: char) { c in " \t\n\r" || c as int in {0x0b, 0x0c} }

  function TrimLeft(s: string): string {
    if s != [] && IsSpace(s[0]) then TrimLeft(s[1..]) else s
  }

  function TrimRight(s: string): string {
    if s != [] && IsSpace(s[|s| - 1]) then TrimRight(s[..|s| - 1]) else s
  }

  function TrimSpace(s: string): string { TrimRight(TrimLeft(s)) }

  ghost predicate IsBlank(s: string) { forall i :: 0 <= i < |s| ==> IsSpace(s[i]) }

  lemma {:induction false} TrimLeftMeaning(s: string) returns (a: string)
    ensures s == a + TrimLeft(s) && IsBlank(a)
    ensures TrimLeft(s) != [] ==> !IsSpace(TrimLeft(s)[0])
  {
    a := [];
    if s != [] && IsSpace(s[0]) {
      a := TrimLeftMeaning(s[1..]);
      a := [s[0]] + a;
    }
  }

  lemma {:induction false} TrimRightMeaning(s: string) returns (b: string)
    ensures s == TrimRight(s) + b && IsBlank(b)
    ensures TrimRight(s) != [] ==> !IsSpace(TrimRight(s)[|TrimRight(s)| - 1])
  {
    b := [];
    if s != [] && IsSpace(s[|s| - 1]) {
      b := TrimRightMeaning(s[..|s| - 1]);
      b := b + [s[|s| - 1]];
    }
  }

  /** `core` is what is left of `s` without the blanks around it. */
  ghost predicate IsCore(s: string, core: string) {
    && (exists a, b :: IsMadeOf(s, a, core, b) && IsBlank(a) && IsBlank(b))
    && (core != [] ==> !IsSpace(core[0]) && !IsSpace(core[|core| - 1]))
  }

  lemma TrimMeaning(s: string)
    ensures IsCore(s, TrimSpace(s))
  {
    var a := TrimLeftMeaning(s);
    var b := TrimRightMeaning(TrimLeft(s));
    assert IsMadeOf(s, a, TrimSpace(s), b);
    if TrimSpace(s) != [] {
      assert TrimSpace(s)[0] == TrimLeft(s)[0];
    }
  }

  function LowerChar(c: char): (r: char)
    ensures !('A' <= r <= 'Z')
    ensures r == c || ('A' <= c <= 'Z' && r as int - 'a' as int == c as int - 'A' as int)
  {
    if 'A' <= c <= 'Z' then (c as int + 32) as char else c
  }

  function ToLower(s: string): string {
    seq(|s|, i requires 0 <= i < |s| => LowerChar(s[i]))
  }
}
