/**
 C strings and their pieces.  A `const char *` is the string of the bytes before its terminating
 NUL; a pointer that may be NULL is an Option.
 */
module CStrings {

  newtype int32 = x: int | -0x8000_0000 <= x < 0x8000_0000
  newtype uint32 = x: int | 0 <= x < 0x1_0000_0000
  newtype uint8 = x: int | 0 <= x < 0x100

  const INT_MAX: int := 0x7fff_ffff

  /** One byte of a raw buffer. */
  type Octet = c: char | c as int < 256 witness '\0'

  /** The bytes before the first NUL, as the str* functions see them. */
  function CStr(s: string): string {
    if s == [] || s[0] == '\0' then [] else [s[0]] + CStr(s[1..])
  }

  predicate IsDot(name: string) {
    name == "." || name == ".."
  }

  /** The maximal pieces of s between separators: always at least one, possibly empty. */
  function Split(s: string, sep: char): (parts: seq<string>)
    ensures parts != []
  {
    if s == [] then [""]
    else
      var rest := Split(s[1..], sep);
      if s[0] == sep then [""] + rest else [[s[0]] + rest[0]] + rest[1..]
  }

  function Join(parts: seq<string>, sep: char): string {
    if parts == [] then ""
    else if |parts| == 1 then parts[0]
    else parts[0] + [sep] + Join(parts[1..], sep)
  }

  ghost predicate SepFree(parts: seq<string>, sep: char) {
    forall p :: p in parts ==> sep !in p
  }

  lemma {:induction false} SplitPiece(p: string, sep: char)
    requires sep !in p
    ensures Split(p, sep) == [p]
  {
    if p != [] {
      assert p == [p[0]] + p[1..];
      SplitPiece(p[1..], sep);
    }
  }

  lemma {:induction false} SplitHead(p: string, rest: string, sep: char)
    requires sep !in p
    ensures Split(p + [sep] + rest, sep) == [p] + Split(rest, sep)
  {
    var s := p + [sep] + rest;
    if p == [] {
      assert s[1..] == rest;
    } else {
      assert p == [p[0]] + p[1..];
      assert s[1..] == p[1..] + [sep] + rest;
      SplitHead(p[1..], rest, sep);
    }
  }

  lemma {:induction false} SplitSepFree(s: string, sep: char)
    ensures SepFree(Split(s, sep), sep)
  {
    if s != [] {
      SplitSepFree(s[1..], sep);
      var rest := Split(s[1..], sep);
      forall p | p in Split(s, sep) ensures sep !in p {
        assert rest[0] in rest;
        if p !in rest && s[0] != sep {
          assert forall q :: q in rest[1..] ==> q in rest;
          assert p == [s[0]] + rest[0];
        }
      }
    }
  }

  /** Splitting undoes joining. */
  lemma {:induction false} SplitJoin(parts: seq<string>, sep: char)
    requires parts != [] && SepFree(parts, sep)
    ensures Split(Join(parts, sep), sep) == parts
  {
    assert parts[0] in parts;
    if |parts| == 1 {
      SplitPiece(parts[0], sep);
    } else {
      assert forall p :: p in parts[1..] ==> p in parts;
      SplitJoin(parts[1..], sep);
      SplitHead(parts[0], Join(parts[1..], sep), sep);
    }
  }

  lemma {:induction false} JoinSnoc(parts: seq<string>, last: string, sep: char)
    ensures Join(parts + [last], sep) ==
            if parts == [] then last else Join(parts, sep) + [sep] + last
  {
    if |parts| == 1 {
      assert (parts + [last])[1..] == [last];
    } else if parts != [] {
      assert (parts + [last])[1..] == parts[1..] + [last];
      JoinSnoc(parts[1..], last, sep);
    }
  }

  lemma {:induction false} JoinGrows(a: seq<string>, b: seq<string>, sep: char)
    ensures |Join(a, sep)| <= |Join(a + b, sep)|
    decreases |b|
  {
    if b == [] {
      assert a + b == a;
    } else {
      JoinSnoc(a, b[0], sep);
      assert a + b == (a + [b[0]]) + b[1..];
      JoinGrows(a + [b[0]], b[1..], sep);
    }
  }

  /** Splitting and joining introduce no character but the separator. */
  lemma {:induction false} SplitKeepsOut(s: string, sep: char, c: char)
    requires c !in s
    ensures SepFree(Split(s, sep), c)
  {
    if s != [] {
      assert forall x :: x in s[1..] ==> x in s;
      SplitKeepsOut(s[1..], sep, c);
      var rest := Split(s[1..], sep);
      assert rest[0] in rest && s[0] in s;
      forall p | p in Split(s, sep) ensures c !in p {
        assert p in rest || p == "" || p == [s[0]] + rest[0];
      }
    }
  }

  lemma {:induction false} JoinKeepsOut(parts: seq<string>, sep: char, c: char)
    requires SepFree(parts, c) && c != sep
    ensures c !in Join(parts, sep)
  {
    if parts != [] {
      assert parts[0] in parts;
      assert forall p :: p in parts[1..] ==> p in parts;
      JoinKeepsOut(parts[1..], sep, c);
    }
  }

  lemma {:induction false} JoinSplit(s: string, sep: char)
    ensures Join(Split(s, sep), sep) == s
  {
    if s != [] {
      var rest := Split(s[1..], sep);
      JoinSplit(s[1..], sep);
      if s[0] == sep {
        assert ([""] + rest)[1..] == rest;
      } else {
        assert ([[s[0]] + rest[0]] + rest[1..])[1..] == rest[1..];
      }
    }
  }

  lemma {:induction false} SplitConcat(a: string, b: string, sep: char)
    ensures Split(a + [sep] + b, sep) == Split(a, sep) + Split(b, sep)
  {
    var s := a + [sep] + b;
    if a == [] {
      assert s[1..] == b;
    } else {
      assert s[0] == a[0] && s[1..] == a[1..] + [sep] + b;
      SplitConcat(a[1..], b, sep);
    }
  }
}
