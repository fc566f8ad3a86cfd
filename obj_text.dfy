/**
 * The text handling of the Wavefront OBJ reader and writer (obj.go): the
 * `strings.Cut` and `strings.CutPrefix` the reader tokenises with,
 * `strconv.Atoi` and `%d` for the integers of a face line, the tokenising
 * of a face line, and the `%d/%d/%d ` records the writer puts on one.
 */
module ObjText {
  import opened Wrappers

  // ---------------------------------------------------------------------------
  // Tokenising

  /** `strings.Cut(s, sep)` for a one-character separator: the text before its first occurrence, the text after, and whether it occurs. */
  function Cut(s: string, sep: char): (r: (string, string, bool))
    ensures r.2 ==> |r.0| + 1 + |r.1| == |s|
    ensures !r.2 ==> r.0 == s && r.1 == []
  {
    if s == [] then ([], [], false)
    else if s[0] == sep then ([], s[1..], true)
    else
      var (before, after, found) := Cut(s[1..], sep);
      ([s[0]] + before, after, found)
  }

  /** When `Cut` reports the separator, the text is the part before it, the separator and the part after, and the part before holds no separator; otherwise the text holds none. */
  lemma {:induction false} CutSplits(s: string, sep: char)
    ensures var r := Cut(s, sep);
            && (r.2 ==> s == r.0 + [sep] + r.1 && sep !in r.0)
            && (!r.2 ==> sep !in s)
  {
    if s != [] {
      CutSplits(s[1..], sep);
      if s[0] == sep {
        assert s == [] + [sep] + s[1..];
      } else {
        assert s == [s[0]] + s[1..];
      }
    }
  }

  /** The first occurrence of the separator is where `Cut` splits. */
  lemma {:induction false} CutAt(before: string, after: string, sep: char)
    requires sep !in before
    ensures Cut(before + [sep] + after, sep) == (before, after, true)
  {
    var s := before + [sep] + after;
    if before != [] {
      assert s[0] == before[0] && before[0] in before;
      assert s[1..] == before[1..] + [sep] + after;
      CutAt(before[1..], after, sep);
      assert [s[0]] + before[1..] == before;
    }
  }

  /** Without the separator, `Cut` returns the whole text and reports failure. */
  lemma {:induction false} CutNone(s: string, sep: char)
    requires sep !in s
    ensures Cut(s, sep) == (s, [], false)
  {
    if s != [] {
      CutNone(s[1..], sep);
    }
  }

  /** `strings.CutPrefix(s, prefix)`: the text after `prefix` when `s` starts with it, else `s` itself. */
  function CutPrefix(s: string, prefix: string): (r: (string, bool))
    ensures r.1 <==> prefix <= s
    ensures if r.1 then s == prefix + r.0 else r.0 == s
  {
    if prefix <= s then
      assert s == prefix + s[|prefix|..];
      (s[|prefix|..], true)
    else (s, false)
  }

  /** Concatenation regrouped. */
  lemma Regroup(a: string, b: string, c: string)
    ensures a + b + c == a + (b + c)
  {
  }

  /** A character in none of three texts is not in their concatenation. */
  lemma NotInJoin(ch: char, a: string, b: string, c: string)
    requires ch !in a && ch !in b && ch !in c
    ensures ch !in a + b + c
  {
  }

  // ---------------------------------------------------------------------------
  // Integers in decimal

  const IntMin: int := -0x8000_0000_0000_0000
  const IntMax: int := 0x7fff_ffff_ffff_ffff

  predicate IsDigit(c: char) { '0' <= c <= '9' }

  predicate AllDigits(s: string) { forall i :: 0 <= i < |s| ==> IsDigit(s[i]) }

  /** The value of a string of decimal digits, most significant first. */
  function DigitsValue(s: string): nat
    requires AllDigits(s)
  {
    if s == [] then 0 else 10 * DigitsValue(s[..|s| - 1]) + (s[|s| - 1] as int - '0' as int)
  }

  /**
   * `strconv.Atoi(s)`: an optional sign, then one or more decimal digits,
   * whose value fits in 64 bits; anything else is an error.
   */
  function Atoi(s: string): Option<int>
  {
    var digits := if |s| > 0 && (s[0] == '+' || s[0] == '-') then s[1..] else s;
    if digits == [] || !AllDigits(digits) then None
    else
      var v: int := if |s| > 0 && s[0] == '-' then -(DigitsValue(digits) as int) else DigitsValue(digits);
      if IntMin <= v <= IntMax then Some(v) else None
  }

  function DigitChar(d: nat): char
    requires d < 10
  {
    ('0' as int + d) as char
  }

  /** `%d` of a natural number: its shortest decimal digits. */
  function Decimal(n: nat): string
  {
    if n < 10 then [DigitChar(n)] else Decimal(n / 10) + [DigitChar(n % 10)]
  }

  /** `%d` of an integer: a minus sign before a negative one. */
  function DecimalInt(k: int): string
  {
    if k < 0 then "-" + Decimal(-k) else Decimal(k)
  }

  /** `Decimal` writes digits only, at least one, that read back as the number. */
  lemma {:induction false} DecimalDigits(n: nat)
    ensures var s := Decimal(n);
            && |s| >= 1 && AllDigits(s) && DigitsValue(s) == n
  {
    if n >= 10 {
      DecimalDigits(n / 10);
      var s := Decimal(n);
      assert s[..|s| - 1] == Decimal(n / 10);
    }
  }

  /** Reading back what `%d` wrote gives the number, for every 64-bit integer. */
  lemma AtoiDecimalInt(k: int)
    requires IntMin <= k <= IntMax
    ensures Atoi(DecimalInt(k)) == Some(k)
  {
    if k < 0 {
      AtoiNegative(k);
    } else {
      AtoiNatural(k);
    }
  }

  /** A negative number reads back through its minus sign. */
  lemma AtoiNegative(k: int)
    requires IntMin <= k < 0
    ensures Atoi(DecimalInt(k)) == Some(k)
  {
    DecimalDigits(-k);
    AtoiMinus(Decimal(-k));
  }

  /** A minus sign before digits reads as the negated value, when that fits. */
  lemma AtoiMinus(d: string)
    requires d != [] && AllDigits(d) && IntMin <= -(DigitsValue(d) as int)
    ensures Atoi("-" + d) == Some(-(DigitsValue(d) as int))
  {
    var s := "-" + d;
    assert s[0] == '-' && s[1..] == d;
  }

  /** A natural number reads back from its digits, which start with no sign. */
  lemma AtoiNatural(k: int)
    requires 0 <= k <= IntMax
    ensures Atoi(DecimalInt(k)) == Some(k)
  {
    var s := DecimalInt(k);
    DecimalDigits(k);
    assert s == Decimal(k) && IsDigit(s[0]);
  }

  /** What `%d` writes holds no space, no slash and no newline. */
  lemma DecimalIntPlain(k: int)
    ensures ' ' !in DecimalInt(k) && '/' !in DecimalInt(k) && '\n' !in DecimalInt(k)
  {
    var n: nat := if k < 0 then -k else k;
    DecimalDigits(n);
    assert forall i :: 0 <= i < |Decimal(n)| ==> IsDigit(Decimal(n)[i]);
  }

  // ---------------------------------------------------------------------------
  // Face lines

  /** The errors of `ParseObj`; `IndexPanic` stands for Go's run-time panic on an index out of range. */
  datatype ObjError =
    | NoSpaceAfterLineType
    | NoSpaceAfterFaceIndexA
    | NoSpaceAfterFaceIndexB
    | NoSpaceInNormal
    | NoSpaceAfterVertexX
    | NoSpaceAfterVertexY
    | NoSpaceAfterFixedX
    | BadInteger
    | BadNumber
    | IndexPanic

  /** Three 1-based indices read as 0-based ones. */
  function ZeroBased(a: string, b: string, c: string): Result<(int, int, int), ObjError>
  {
    if Atoi(a).None? || Atoi(b).None? || Atoi(c).None? then Err(BadInteger)
    else Ok((Atoi(a).value - 1, Atoi(b).value - 1, Atoi(c).value - 1))
  }

  /** The tokenising of `parseFace` (obj.go:60-83): three space-separated tokens, each cut at its first `/`, read 1-based. */
  function FaceIndices(line: string): Result<(int, int, int), ObjError>
  {
    var (as0, rest1, ok1) := Cut(line, ' ');
    if !ok1 then Err(NoSpaceAfterFaceIndexA)
    else
      var (bs0, rest2, ok2) := Cut(rest1, ' ');
      if !ok2 then Err(NoSpaceAfterFaceIndexB)
      else
        var cs0 := Cut(rest2, ' ').0;
        ZeroBased(Cut(as0, '/').0, Cut(bs0, '/').0, Cut(cs0, '/').0)
  }

  /** A line `t args` followed by a newline is read as one line, of type `t` with arguments `args`. */
  lemma LineSplits(t: string, args: string, rest: string)
    requires ' ' !in t && '\n' !in t && '\n' !in args
    ensures Cut(t + " " + args + "\n" + rest, '\n') == (t + " " + args, rest, true)
    ensures Cut(t + " " + args, ' ') == (t, args, true)
  {
    assert t + " " + args + "\n" + rest == (t + " " + args) + ['\n'] + rest;
    assert '\n' !in t + " " + args;
    CutAt(t + " " + args, rest, '\n');
    CutAt(t, args, ' ');
  }

  /** `parseFace` reads the first three tokens only, cuts each at its first `/` and makes it 0-based. */
  lemma FaceTokens(a: string, b: string, c: string, rest: string)
    requires ' ' !in a && ' ' !in b && ' ' !in c
    requires rest == [] || rest[0] == ' '
    ensures FaceIndices(a + " " + (b + " " + (c + rest))) == ZeroBased(Cut(a, '/').0, Cut(b, '/').0, Cut(c, '/').0)
  {
    var x := b + " " + (c + rest);
    assert Cut(a + " " + x, ' ') == (a, x, true) by { CutAt(a, x, ' '); }
    assert Cut(x, ' ') == (b, c + rest, true) by { CutAt(b, c + rest, ' '); }
    assert Cut(c + rest, ' ').0 == c by { LastToken(c, rest); }
  }

  /** The last index token runs to the end of the line or to the next space. */
  lemma LastToken(c: string, rest: string)
    requires ' ' !in c && (rest == [] || rest[0] == ' ')
    ensures Cut(c + rest, ' ').0 == c
  {
    if rest == [] {
      assert c + rest == c;
      CutNone(c, ' ');
    } else {
      assert c + rest == c + [' '] + rest[1..];
      CutAt(c, rest[1..], ' ');
    }
  }

  /** `parseFace` fails when the first token, or the second, is not followed by a space. */
  lemma FaceNeedsSpaces(a: string, line: string)
    requires ' ' !in a
    ensures ' ' !in line ==> FaceIndices(line) == Err(NoSpaceAfterFaceIndexA)
    ensures ' ' !in line ==> FaceIndices(a + " " + line) == Err(NoSpaceAfterFaceIndexB)
  {
    if ' ' !in line {
      CutNone(line, ' ');
      assert a + " " + line == a + [' '] + line;
      CutAt(a, line, ' ');
    }
  }

  // ---------------------------------------------------------------------------
  // Writing faces

  /** The `%d/%d/%d` token of a record, from the digits `d` its number is written as. */
  function Token(d: string): string
  {
    d + "/" + d + "/" + d
  }

  /** One `%d/%d/%d ` record of the number `k`. */
  function Record(k: int): string
  {
    Token(DecimalInt(k)) + " "
  }

  /** The records of a face's vertex ids, each written 1-based. */
  function Records(ids: seq<int>): string
  {
    if ids == [] then [] else Records(ids[..|ids| - 1]) + Record(ids[|ids| - 1] + 1)
  }

  /** The line `WriteObj` writes for a face with these vertex ids. */
  function FaceLine(ids: seq<int>): string
  {
    "f " + Records(ids) + "\n"
  }

  /** One turn of the face loop: the record of the face's `k`-th id extends the line by one record. */
  lemma FaceRecordStep(ids: seq<int>, k: nat, prefix: string)
    requires k < |ids| && prefix == "f " + Records(ids[..k])
    ensures prefix + Record(ids[k] + 1) == "f " + Records(ids[..k + 1])
  {
    var rs, r := Records(ids[..k]), Record(ids[k] + 1);
    assert Records(ids[..k + 1]) == rs + r by {
      assert ids[..k + 1] == ids[..k] + [ids[k]];
      RecordsSnoc(ids[..k], ids[k]);
    }
    assert prefix + r == "f " + (rs + r) by {
      Regroup("f ", rs, r);
    }
  }

  /** A token of plain digits holds no space and no newline, and its part before the first `/` is the digits. */
  lemma TokenPlain(d: string)
    requires ' ' !in d && '/' !in d && '\n' !in d
    ensures ' ' !in Token(d) && '\n' !in Token(d) && Cut(Token(d), '/').0 == d
  {
    assert Token(d) == d + ['/'] + (d + "/" + d) by {
      Regroup(d + "/", d, "/" + d);
      Regroup(d, "/", d + "/" + d);
      Regroup(d + "/" + d, "/", d);
    }
    CutAt(d, d + "/" + d, '/');
  }

  /** Writing one more id appends its record. */
  lemma RecordsSnoc(ids: seq<int>, x: int)
    ensures Records(ids + [x]) == Records(ids) + Record(x + 1)
  {
    var t := ids + [x];
    assert t != [] && t[|t| - 1] == x && t[..|t| - 1] == ids;
  }

  /** The records of three ids are their three tokens, each followed by a space. */
  lemma RecordsOfThree(a: int, b: int, c: int)
    ensures Records([a, b, c]) == Record(a + 1) + Record(b + 1) + Record(c + 1)
  {
    assert Records([a]) == Record(a + 1) by {
      RecordsSnoc([], a);
      assert [] + [a] == [a];
    }
    assert Records([a, b]) == Records([a]) + Record(b + 1) by {
      RecordsSnoc([a], b);
      assert [a] + [b] == [a, b];
    }
    assert Records([a, b, c]) == Records([a, b]) + Record(c + 1) by {
      RecordsSnoc([a, b], c);
      assert [a, b] + [c] == [a, b, c];
    }
  }

  /** Three tokens of plain digits, each followed by a space, hold no newline and are read by `parseFace` as those digits. */
  lemma ReadTokens(dx: string, dy: string, dz: string)
    requires ' ' !in dx && '/' !in dx && '\n' !in dx
    requires ' ' !in dy && '/' !in dy && '\n' !in dy
    requires ' ' !in dz && '/' !in dz && '\n' !in dz
    ensures var line := (Token(dx) + " ") + (Token(dy) + " ") + (Token(dz) + " ");
            '\n' !in line && FaceIndices(line) == ZeroBased(dx, dy, dz)
  {
    var tx, ty, tz := Token(dx), Token(dy), Token(dz);
    TokenPlain(dx);
    TokenPlain(dy);
    TokenPlain(dz);
    Regroup(tx + " ", ty + " ", tz + " ");
    FaceTokens(tx, ty, tz, " ");
    NotInJoin('\n', tx + " ", ty + " ", tz + " ");
  }

  /** `parseFace` on three records reads back their numbers, made 0-based, and the records hold no newline. */
  lemma ReadRecords(x: int, y: int, z: int)
    requires IntMin <= x <= IntMax && IntMin <= y <= IntMax && IntMin <= z <= IntMax
    ensures '\n' !in Record(x) + Record(y) + Record(z)
    ensures FaceIndices(Record(x) + Record(y) + Record(z)) == Ok((x - 1, y - 1, z - 1))
  {
    var dx, dy, dz := DecimalInt(x), DecimalInt(y), DecimalInt(z);
    DecimalIntPlain(x);
    DecimalIntPlain(y);
    DecimalIntPlain(z);
    ReadTokens(dx, dy, dz);
    assert ZeroBased(dx, dy, dz) == Ok((x - 1, y - 1, z - 1)) by {
      AtoiDecimalInt(x);
      AtoiDecimalInt(y);
      AtoiDecimalInt(z);
    }
  }

  /** The records of three 64-bit ids hold no newline and read back as the ids, made 0-based. */
  lemma RecordsReadBack(a: int, b: int, c: int)
    requires IntMin <= a + 1 <= IntMax && IntMin <= b + 1 <= IntMax && IntMin <= c + 1 <= IntMax
    ensures '\n' !in Records([a, b, c]) && FaceIndices(Records([a, b, c])) == Ok((a, b, c))
  {
    RecordsOfThree(a, b, c);
    ReadRecords(a + 1, b + 1, c + 1);
  }
}
