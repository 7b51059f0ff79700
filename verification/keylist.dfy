/** getList of tools/treei.c: turn a comma-separated list of keys of one to
    three decimal digits ("natural numbers < 1000") into keys appended to a
    list. The C string is a sequence of characters read up to its first
    NUL; the list is the sequence of keys it holds. The result is the
    return code (0 or -1) and the list afterwards: keys appended before an
    error stay. */
module KeyList {

  /** The bound strnlen is given. */
  const ScanLimit: nat := 4096

  /** strnlen: the characters before the first NUL, at most `n`. */
  function Strnlen(s: seq<char>, n: nat): (r: nat)
    ensures r <= n && r <= |s|
    ensures forall i :: 0 <= i < r ==> s[i] != '\0'
    ensures r < n && r < |s| ==> s[r] == '\0'
  {
    if n == 0 || |s| == 0 || s[0] == '\0' then 0 else 1 + Strnlen(s[1..], n - 1)
  }

  predicate IsDigit(c: char) {
    '0' <= c <= '9'
  }

  /** The digit check on character `x` of a key: corrected, a character
      outside '0'..'9'; as written (`buf[x] < '0' || x > '9'`), a character
      below '0' or a position above 57, which no key of three characters
      has. */
  predicate Rejected(buf: seq<char>, x: nat, strict: bool)
    requires x < |buf|
  {
    if strict then buf[x] < '0' || buf[x] > '9' else buf[x] < '0' || x > '9' as int
  }

  /** A key that passes the length and digit checks. */
  predicate Good(f: seq<char>, strict: bool) {
    1 <= |f| <= 3 && forall x :: 0 <= x < |f| ==> !Rejected(f, x, strict)
  }

  /** The longest prefix of decimal digits. */
  function LeadingDigits(f: seq<char>): (r: seq<char>)
    ensures |r| <= |f| && r == f[..|r|]
    ensures forall i :: 0 <= i < |r| ==> IsDigit(r[i])
    ensures |r| < |f| ==> !IsDigit(f[|r|])
  {
    if |f| == 0 || !IsDigit(f[0]) then [] else [f[0]] + LeadingDigits(f[1..])
  }

  /** The value of a run of decimal digits. */
  function DigitsValue(d: seq<char>): (v: nat)
    requires forall i :: 0 <= i < |d| ==> IsDigit(d[i])
  {
    if |d| == 0 then 0
    else
      var c := d[|d| - 1];
      assert IsDigit(c);
      10 * DigitsValue(d[..|d| - 1]) + (c as int - '0' as int)
  }

  /** atoi on a key: the value of its leading digits. (Leading blanks and
      signs, which atoi would also read, are characters below '0' and never
      get past either digit check.) */
  function Atoi(f: seq<char>): nat {
    DigitsValue(LeadingDigits(f))
  }

  // ------------------------------------------------------------ the loop

  /** The loop of getList from position `i`, with the key read so far in
      `buf` and the list in `acc`. Before each character a key of more
      than three characters is an error; at a comma or the end, an empty
      key, a rejected character or a failed allocation is an error, and
      otherwise the key's atoi value is appended. `alloc(n)` says whether
      allocating and appending the key that becomes element n succeeds. */
  function Scan(str: seq<char>, s: nat, i: nat, buf: seq<char>, acc: seq<int>,
                alloc: nat -> bool, strict: bool): (r: (int, seq<int>))
    requires s <= |str| && i <= s + 1
    decreases s + 1 - i
  {
    if i > s then (0, acc)
    else if |buf| > 3 then (-1, acc)
    else if i == s || str[i] == ',' then
      if |buf| < 1 then (-1, acc)
      else if exists x :: 0 <= x < |buf| && Rejected(buf, x, strict) then (-1, acc)
      else if !alloc(|acc|) then (-1, acc)
      else Scan(str, s, i + 1, [], acc + [Atoi(buf)], alloc, strict)
    else Scan(str, s, i + 1, buf + [str[i]], acc, alloc, strict)
  }

  /** getList with the given digit check: a string of 4095 characters or
      more is refused, otherwise the loop runs over it. */
  function GetListWith(str: seq<char>, list: seq<int>, alloc: nat -> bool, strict: bool): (r: (int, seq<int>))
  {
    var s := Strnlen(str, ScanLimit);
    if s >= 4095 then (-1, list) else Scan(str, s, 0, [], list, alloc, strict)
  }

  /** getList as written, with the digit check `x > '9'`. */
  function GetListAsWritten(str: seq<char>, list: seq<int>, alloc: nat -> bool): (r: (int, seq<int>)) {
    GetListWith(str, list, alloc, false)
  }

  /** getList with the digit check corrected to `buf[x] > '9'`. */
  function GetList(str: seq<char>, list: seq<int>, alloc: nat -> bool): (r: (int, seq<int>)) {
    GetListWith(str, list, alloc, true)
  }

  // ------------------------------------------------------------ reference

  /** The first comma. */
  function Comma(t: seq<char>): (k: nat)
    requires ',' in t
    ensures k < |t| && t[k] == ',' && ',' !in t[..k]
  {
    if t[0] == ',' then 0
    else
      assert ',' in t[1..] by {
        var j :| 0 <= j < |t| && t[j] == ',';
        assert t[1..][j - 1] == ',';
      }
      var k := Comma(t[1..]);
      assert t[..k + 1] == [t[0]] + t[1..][..k];
      k + 1
  }

  /** The keys of a string: the pieces between commas. */
  function Fields(t: seq<char>): (r: seq<seq<char>>)
    ensures |r| >= 1
    decreases |t|
  {
    if ',' !in t then [t] else var k := Comma(t); [t[..k]] + Fields(t[k + 1..])
  }

  /** The reference for the loop: convert the keys one after the other,
      stopping at the first that fails its checks or its allocation; the
      keys converted so far stay appended. */
  function Convert(fs: seq<seq<char>>, acc: seq<int>, alloc: nat -> bool, strict: bool): (r: (int, seq<int>))
    ensures r.0 == 0 || r.0 == -1
    ensures |acc| <= |r.1| <= |acc| + |fs|
    decreases |fs|
  {
    if |fs| == 0 then (0, acc)
    else if !Good(fs[0], strict) || !alloc(|acc|) then (-1, acc)
    else Convert(fs[1..], acc + [Atoi(fs[0])], alloc, strict)
  }

  /** What Convert appends, and where it stops. */
  lemma {:induction false} ConvertKeeps(fs: seq<seq<char>>, acc: seq<int>, alloc: nat -> bool, strict: bool)
    ensures var r := Convert(fs, acc, alloc, strict);
            && r.1[..|acc|] == acc
            && (forall q :: 0 <= q < |r.1| - |acc| ==> Good(fs[q], strict) && alloc(|acc| + q) && r.1[|acc| + q] == Atoi(fs[q]))
            && (r.0 == 0 ==> |r.1| == |acc| + |fs|)
            && (r.0 == -1 ==> var p := |r.1| - |acc|; p < |fs| && !(Good(fs[p], strict) && alloc(|acc| + p)))
    decreases |fs|
  {
    if |fs| > 0 && Good(fs[0], strict) && alloc(|acc|) {
      var acc' := acc + [Atoi(fs[0])];
      var r := Convert(fs[1..], acc', alloc, strict);
      assert r == Convert(fs, acc, alloc, strict);
      ConvertKeeps(fs[1..], acc', alloc, strict);
      assert r.1[..|acc|] == r.1[..|acc'|][..|acc|];
      forall q | 1 <= q < |fs|
        ensures fs[1..][q - 1] == fs[q] && |acc'| + (q - 1) == |acc| + q
      {
      }
      assert r.1[|acc|] == Atoi(fs[0]) by {
        assert r.1[..|acc'|][|acc|] == r.1[|acc|];
      }
    }
  }

  /** Convert succeeds exactly when every key passes its checks and its
      allocation. */
  lemma ConvertSucceeds(fs: seq<seq<char>>, acc: seq<int>, alloc: nat -> bool, strict: bool)
    ensures Convert(fs, acc, alloc, strict).0 == 0 <==> forall q :: 0 <= q < |fs| ==> Good(fs[q], strict) && alloc(|acc| + q)
  {
    ConvertKeeps(fs, acc, alloc, strict);
    var r := Convert(fs, acc, alloc, strict);
    if r.0 == 0 {
      forall q | 0 <= q < |fs|
        ensures Good(fs[q], strict) && alloc(|acc| + q)
      {
        assert 0 <= q < |r.1| - |acc|;
      }
    } else {
      var p := |r.1| - |acc|;
      assert p < |fs| && !(Good(fs[p], strict) && alloc(|acc| + p));
    }
  }

  /** A comma ends the first field. */
  lemma FieldsComma(b: seq<char>, rest: seq<char>)
    requires ',' !in b
    ensures Fields(b + [','] + rest) == [b] + Fields(rest)
  {
    var t := b + [','] + rest;
    assert t[|b|] == ',';
    var k := Comma(t);
    assert k == |b| by {
      assert forall j :: 0 <= j < |b| ==> t[j] == b[j];
    }
    assert t[..k] == b;
    assert t[k + 1..] == rest;
  }

  /** The first key of `b + x` begins with `b` when `b` has no comma. */
  lemma FieldsHead(b: seq<char>, x: seq<char>)
    requires ',' !in b
    ensures |Fields(b + x)[0]| >= |b|
  {
    var t := b + x;
    if ',' in t {
      var k := Comma(t);
      assert forall j :: 0 <= j < |b| ==> t[j] == b[j];
    }
  }

  /** The loop converts the keys of what is left of the string, the key
      read so far included. */
  lemma {:induction false} ScanFields(str: seq<char>, s: nat, i: nat, buf: seq<char>, acc: seq<int>,
                                      alloc: nat -> bool, strict: bool)
    requires s <= |str| && i <= s && ',' !in buf && |buf| <= 4
    ensures Scan(str, s, i, buf, acc, alloc, strict) == Convert(Fields(buf + str[i..s]), acc, alloc, strict)
    decreases s - i
  {
    var t := buf + str[i..s];
    if i == s {
      assert t == buf;
      assert Fields(t) == [buf];
      assert Fields(t)[1..] == [];
      if |buf| <= 3 && (forall x :: 0 <= x < |buf| ==> !Rejected(buf, x, strict)) && |buf| >= 1 && alloc(|acc|) {
        assert Scan(str, s, i + 1, [], acc + [Atoi(buf)], alloc, strict) == (0, acc + [Atoi(buf)]);
      }
    } else if str[i] == ',' {
      assert t == buf + [','] + str[i + 1..s];
      FieldsComma(buf, str[i + 1..s]);
      assert Fields(t)[1..] == Fields(str[i + 1..s]);
      if |buf| <= 3 && (forall x :: 0 <= x < |buf| ==> !Rejected(buf, x, strict)) && |buf| >= 1 && alloc(|acc|) {
        ScanFields(str, s, i + 1, [], acc + [Atoi(buf)], alloc, strict);
        assert [] + str[i + 1..s] == str[i + 1..s];
      }
    } else {
      FieldsHead(buf, str[i..s]);
      if |buf| <= 3 {
        assert t == (buf + [str[i]]) + str[i + 1..s];
        ScanFields(str, s, i + 1, buf + [str[i]], acc, alloc, strict);
      }
    }
  }

  /** getList is the reference conversion of the keys of the string up to
      its NUL, after the length check. */
  lemma GetListFields(str: seq<char>, list: seq<int>, alloc: nat -> bool, strict: bool)
    ensures var s := Strnlen(str, ScanLimit);
            GetListWith(str, list, alloc, strict)
            == if s >= 4095 then (-1, list) else Convert(Fields(str[..s]), list, alloc, strict)
  {
    var s := Strnlen(str, ScanLimit);
    if s < 4095 {
      ScanFields(str, s, 0, [], list, alloc, strict);
      assert [] + str[0..s] == str[..s];
    }
  }

  // ------------------------------------------------------------ properties

  /** The value of one to three digits is below 1000. */
  lemma {:induction false} DigitsBound(d: seq<char>)
    requires forall i :: 0 <= i < |d| ==> IsDigit(d[i])
    ensures DigitsValue(d) < if |d| == 0 then 1 else if |d| == 1 then 10 else if |d| == 2 then 100 else if |d| == 3 then 1000 else DigitsValue(d) + 1
  {
    if 1 <= |d| <= 3 {
      DigitsBound(d[..|d| - 1]);
    }
  }

  /** One to three decimal digits. */
  predicate Decimal(f: seq<char>) {
    1 <= |f| <= 3 && forall x :: 0 <= x < |f| ==> IsDigit(f[x])
  }

  /** A key that passes the corrected checks is one to three decimal
      digits, and atoi gives its decimal value, below 1000. */
  lemma GoodDecimal(f: seq<char>)
    requires Good(f, true)
    ensures Decimal(f) && Atoi(f) == DigitsValue(f) && Atoi(f) < 1000
  {
    forall x | 0 <= x < |f|
      ensures IsDigit(f[x])
    {
      assert !Rejected(f, x, true);
    }
    var l := LeadingDigits(f);
    assert |l| == |f|;
    assert l == f;
    DigitsBound(f);
  }

  /** On success the corrected getList has appended, in order, one key per
      comma-separated piece, each of one to three decimal digits, with its
      decimal value, which is below 1000. */
  lemma GetListKeys(str: seq<char>, list: seq<int>, alloc: nat -> bool)
    ensures var r := GetList(str, list, alloc);
            var fs := Fields(str[..Strnlen(str, ScanLimit)]);
            r.0 == 0 ==>
              && Strnlen(str, ScanLimit) < 4095 && |r.1| == |list| + |fs| && r.1[..|list|] == list
              && forall q :: 0 <= q < |fs| ==> Decimal(fs[q]) && r.1[|list| + q] == DigitsValue(fs[q]) < 1000
  {
    var r := GetList(str, list, alloc);
    var s := Strnlen(str, ScanLimit);
    GetListFields(str, list, alloc, true);
    if r.0 == 0 {
      var fs := Fields(str[..s]);
      ConvertKeeps(fs, list, alloc, true);
      ConvertSucceeds(fs, list, alloc, true);
      forall q | 0 <= q < |fs|
        ensures Decimal(fs[q]) && r.1[|list| + q] == DigitsValue(fs[q]) < 1000
      {
        GoodDecimal(fs[q]);
      }
    }
  }

  /** A string of 4095 characters or more before its NUL is refused and
      the list is left alone. */
  lemma GetListTooLong(str: seq<char>, list: seq<int>, alloc: nat -> bool, strict: bool)
    requires Strnlen(str, ScanLimit) >= 4095
    ensures GetListWith(str, list, alloc, strict) == (-1, list)
  {
  }

  /** An empty string, a leading or trailing comma and two commas in a row
      each make an empty key, which is refused. */
  lemma EmptyKeyRefused(str: seq<char>, list: seq<int>, alloc: nat -> bool, strict: bool)
    requires Strnlen(str, ScanLimit) < 4095
    requires var fs := Fields(str[..Strnlen(str, ScanLimit)]);
             exists q :: 0 <= q < |fs| && fs[q] == []
    ensures GetListWith(str, list, alloc, strict).0 == -1
  {
    GetListFields(str, list, alloc, strict);
    ConvertKeeps(Fields(str[..Strnlen(str, ScanLimit)]), list, alloc, strict);
    ConvertSucceeds(Fields(str[..Strnlen(str, ScanLimit)]), list, alloc, strict);
  }

  /** An error leaves the keys converted before it in the list; the key
      after them is the one that failed. */
  lemma ErrorKeepsPrefix(str: seq<char>, list: seq<int>, alloc: nat -> bool, strict: bool)
    ensures var r := GetListWith(str, list, alloc, strict);
            var s := Strnlen(str, ScanLimit);
            r.0 == -1 && s < 4095 ==>
              var fs := Fields(str[..s]);
              && |list| <= |r.1| && r.1[..|list|] == list
              && var p := |r.1| - |list|;
                 && p < |fs| && !(Good(fs[p], strict) && alloc(|list| + p))
                 && forall q :: 0 <= q < p ==> r.1[|list| + q] == Atoi(fs[q])
  {
    var s := Strnlen(str, ScanLimit);
    GetListFields(str, list, alloc, strict);
    if s < 4095 {
      var fs := Fields(str[..s]);
      ConvertKeeps(fs, list, alloc, strict);
    }
  }

  /** A string without comma or NUL, shorter than 4095 characters, is
      converted as a single key. */
  lemma OneKey(f: seq<char>, alloc: nat -> bool, strict: bool)
    requires ',' !in f && '\0' !in f && |f| < 4095
    ensures GetListWith(f, [], alloc, strict) == Convert([f], [], alloc, strict)
  {
    var s := Strnlen(f, ScanLimit);
    assert forall i :: 0 <= i < |f| ==> f[i] != '\0';
    assert s == |f|;
    GetListFields(f, [], alloc, strict);
    assert f[..s] == f;
  }

  /** As written, a key with a letter after a digit passes the digit
      check: "1a" gives the key 1, where the corrected check refuses it. */
  lemma AsWrittenAcceptsLetter(alloc: nat -> bool)
    requires alloc(0)
    ensures GetListAsWritten("1a", [], alloc) == (0, [1])
    ensures GetList("1a", [], alloc) == (-1, [])
  {
    OneKey("1a", alloc, false);
    OneKey("1a", alloc, true);
    assert LeadingDigits("1a") == "1" by {
      assert "1a"[1..] == "a";
      assert LeadingDigits("a") == [];
    }
    assert "1"[..0] == [];
    assert Atoi("1a") == 1;
    assert Good("1a", false);
    assert Rejected("1a", 1, true);
    assert ["1a"][0] == "1a";
    assert ["1a"][1..] == [];
    var none: seq<int> := [];
    assert none + [Atoi("1a")] == [1];
    assert !Rejected("1a", 0, false) && !Rejected("1a", 1, false);
    assert Convert(["1a"], [], alloc, false) == Convert([], [1], alloc, false);
  }

  /** As written, a key of a letter alone passes too: "a" gives the key 0. */
  lemma AsWrittenAcceptsLetterAlone(alloc: nat -> bool)
    requires alloc(0)
    ensures GetListAsWritten("a", [], alloc) == (0, [0])
    ensures GetList("a", [], alloc) == (-1, [])
  {
    OneKey("a", alloc, false);
    OneKey("a", alloc, true);
    assert LeadingDigits("a") == [];
    assert Good("a", false);
    assert Rejected("a", 0, true);
    assert ["a"][0] == "a";
    assert ["a"][1..] == [];
    var none: seq<int> := [];
    assert Atoi("a") == 0;
    assert none + [Atoi("a")] == [0];
    assert !Rejected("a", 0, false);
    assert Convert(["a"], [], alloc, false) == Convert([], [0], alloc, false);
  }
}
