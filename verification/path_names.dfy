/** String handling on Maya DAG paths and camera names: splitting a long
    name such as `|grp|cam1|cam1Shape` on `'|'` with Python's `str.split`
    semantics, reading the camera name and camera path out of it
    (anim_cam_manager_utils.py `get_camera_name`, cam_entry.py
    `get_camera_path`), and reading a camera number from the digits of a
    name (cam_entry.py `get_camera_number`). */
module PathNames {
  import opened Wrappers
  import Seqs

  /** Why a name could not be read; each stands for the exception the
      Python code raises. */
  datatype NameFailure =
    | NoParentPiece  // `split('|')[-2]` on a single piece: IndexError
    | NoDigits       // `int('')` when the name holds no digit: ValueError

  const Separator: char := '|'

  // ---------------------------------------------------------------- split

  /** Python's `s.split(sep)`: the maximal separator-free runs, with an
      empty piece wherever two separators touch or the string starts or
      ends with one. */
  function Split(s: string, sep: char): (r: seq<string>)
    ensures |r| >= 1
    ensures |r| == 1 <==> sep !in s
    ensures forall i :: 0 <= i < |r| ==> sep !in r[i]
  {
    if |s| == 0 then [""]
    else
      var rest := Split(s[1..], sep);
      assert forall c :: c in s <==> c == s[0] || c in s[1..];
      if s[0] == sep then [""] + rest
      else [[s[0]] + rest[0]] + rest[1..]
  }

  /** Python's `sep.join(pieces)`. */
  function Join(pieces: seq<string>, sep: char): string
    requires |pieces| >= 1
  {
    if |pieces| == 1 then pieces[0]
    else pieces[0] + [sep] + Join(pieces[1..], sep)
  }

  /** Joining the pieces back together gives the original string. */
  lemma {:induction false} JoinSplit(s: string, sep: char)
    ensures Join(Split(s, sep), sep) == s
  {
    if |s| > 0 {
      var rest := Split(s[1..], sep);
      JoinSplit(s[1..], sep);
      if s[0] == sep {
        assert ([""] + rest)[1..] == rest;
      } else {
        var r := [[s[0]] + rest[0]] + rest[1..];
        if |rest| == 1 {
          assert s == [s[0]] + s[1..];
        } else {
          assert r[1..] == rest[1..];
          assert Join(rest, sep) == rest[0] + [sep] + Join(rest[1..], sep);
          assert s == [s[0]] + s[1..];
        }
      }
    }
  }

  /** A piece with no separator followed by a separator splits off as one
      piece. */
  lemma {:induction false} SplitPrefix(a: string, b: string, sep: char)
    requires sep !in a
    ensures Split(a + [sep] + b, sep) == [a] + Split(b, sep)
    decreases |a|
  {
    if |a| == 0 {
      assert a + [sep] + b == [sep] + b;
      assert ([sep] + b)[1..] == b;
    } else {
      SplitPrefix(a[1..], b, sep);
      assert (a + [sep] + b)[1..] == a[1..] + [sep] + b;
      assert [a[0]] + a[1..] == a;
    }
  }

  /** Splitting a join of separator-free pieces gives the pieces back. */
  lemma {:induction false} SplitJoin(pieces: seq<string>, sep: char)
    requires |pieces| >= 1
    requires forall i :: 0 <= i < |pieces| ==> sep !in pieces[i]
    ensures Split(Join(pieces, sep), sep) == pieces
  {
    if |pieces| == 1 {
      SplitNoSeparator(pieces[0], sep);
    } else {
      SplitJoin(pieces[1..], sep);
      SplitPrefix(pieces[0], Join(pieces[1..], sep), sep);
      assert pieces == [pieces[0]] + pieces[1..];
    }
  }

  lemma {:induction false} SplitNoSeparator(s: string, sep: char)
    requires sep !in s
    ensures Split(s, sep) == [s]
  {
    if |s| > 0 {
      assert s[1..] == s[|s| - (|s| - 1)..];
      assert forall c :: c in s[1..] ==> c in s;
      SplitNoSeparator(s[1..], sep);
      assert s == [s[0]] + s[1..];
    }
  }

  // ---------------------------------------------------------------- names

  /** The camera name: the second-to-last piece of the long name, that is
      the transform above the camera shape. */
  function GetCameraName(fullName: string): (r: Result<string, NameFailure>)
    ensures r.Err? <==> Separator !in fullName
    ensures r.Err? ==> r.error == NoParentPiece
    ensures r.Ok? ==> Separator !in r.value
  {
    var pieces := Split(fullName, Separator);
    if |pieces| < 2 then Err(NoParentPiece)
    else Ok(pieces[|pieces| - 2])
  }

  /** A long name made of parent groups, the transform and its shape names
      the transform: the piece before the last. */
  lemma CameraNameOfPieces(pieces: seq<string>)
    requires |pieces| >= 2
    requires forall i :: 0 <= i < |pieces| ==> Separator !in pieces[i]
    ensures GetCameraName(Join(pieces, Separator)) == Ok(pieces[|pieces| - 2])
  {
    var fullName := Join(pieces, Separator);
    SplitJoin(pieces, Separator);
    var split := Split(fullName, Separator);
    assert split == pieces;
    assert |split| >= 2;
  }

  /** Concatenation of strings with nothing between them. */
  function Concat(pieces: seq<string>): string
  {
    if |pieces| == 0 then "" else pieces[0] + Concat(pieces[1..])
  }

  /** The string with every occurrence of `sep` removed. */
  function Strip(s: string, sep: char): (r: string)
    ensures sep !in r
    ensures |r| <= |s|
  {
    if |s| == 0 then ""
    else if s[0] == sep then Strip(s[1..], sep)
    else [s[0]] + Strip(s[1..], sep)
  }

  /** The camera path: every piece except the last, glued together with no
      separator between them. For a top-level camera `|cam|camShape` this is
      `cam`; for a camera under a group the separators are lost. */
  function GetCameraPath(fullName: string): (r: string)
    ensures Separator !in r
    ensures r + Split(fullName, Separator)[|Split(fullName, Separator)| - 1]
            == Strip(fullName, Separator)
  {
    var pieces := Split(fullName, Separator);
    ConcatNoSeparator(pieces[..|pieces| - 1], Separator);
    ConcatSplit(fullName, Separator);
    ConcatSnoc(pieces[..|pieces| - 1], pieces[|pieces| - 1]);
    assert pieces[..|pieces| - 1] + [pieces[|pieces| - 1]] == pieces;
    Concat(pieces[..|pieces| - 1])
  }

  lemma {:induction false} ConcatNoSeparator(pieces: seq<string>, sep: char)
    requires forall i :: 0 <= i < |pieces| ==> sep !in pieces[i]
    ensures sep !in Concat(pieces)
  {
    if |pieces| > 0 {
      ConcatNoSeparator(pieces[1..], sep);
    }
  }

  lemma {:induction false} ConcatSnoc(pieces: seq<string>, last: string)
    ensures Concat(pieces + [last]) == Concat(pieces) + last
  {
    if |pieces| == 0 {
      assert [] + [last] == [last];
    } else {
      ConcatSnoc(pieces[1..], last);
      assert (pieces + [last])[1..] == pieces[1..] + [last];
    }
  }

  /** Gluing the pieces of a split together drops exactly the separators. */
  lemma {:induction false} ConcatSplit(s: string, sep: char)
    ensures Concat(Split(s, sep)) == Strip(s, sep)
  {
    if |s| > 0 {
      var rest := Split(s[1..], sep);
      ConcatSplit(s[1..], sep);
      if s[0] == sep {
        assert ([""] + rest)[1..] == rest;
      } else {
        var r := [[s[0]] + rest[0]] + rest[1..];
        assert r[1..] == rest[1..];
        assert Concat(rest) == rest[0] + Concat(rest[1..]);
      }
    }
  }

  /** The camera path of a long name made of parent groups, the transform
      and its shape is every piece but the shape, glued together without
      separators. */
  lemma CameraPathOfPieces(pieces: seq<string>)
    requires |pieces| >= 1
    requires forall i :: 0 <= i < |pieces| ==> Separator !in pieces[i]
    ensures GetCameraPath(Join(pieces, Separator)) == Concat(pieces[..|pieces| - 1])
  {
    SplitJoin(pieces, Separator);
  }

  /** The usual top-level shape path `|cam|camShape` gives the path `cam`. */
  lemma TopLevelCameraPath(cam: string, shape: string)
    requires Separator !in cam && Separator !in shape
    ensures GetCameraPath("|" + cam + "|" + shape) == cam
    ensures GetCameraName("|" + cam + "|" + shape) == Ok(cam)
  {
    assert Join(["", cam, shape], Separator) == "|" + cam + "|" + shape by {
      assert Join(["", cam, shape][1..], Separator) == cam + "|" + shape;
    }
    CameraPathOfPieces(["", cam, shape]);
    CameraNameOfPieces(["", cam, shape]);
    assert ["", cam, shape][..2] == ["", cam];
    assert Concat(["", cam]) == cam by {
      assert ["", cam][1..] == [cam];
      assert Concat([cam]) == cam;
    }
  }

  // -------------------------------------------------------------- numbers

  predicate IsDigit(c: char) {
    '0' <= c <= '9'
  }

  /** The digit characters of `s`, in order. */
  function Digits(s: string): (r: string)
    ensures forall i :: 0 <= i < |r| ==> IsDigit(r[i])
    ensures |r| == 0 <==> forall i :: 0 <= i < |s| ==> !IsDigit(s[i])
  {
    if |s| == 0 then ""
    else if IsDigit(s[0]) then [s[0]] + Digits(s[1..])
    else
      assert forall i :: 1 <= i < |s| ==> s[i] == s[1..][i - 1];
      Digits(s[1..])
  }

  lemma {:induction false} DigitsAppend(a: string, b: string)
    ensures Digits(a + b) == Digits(a) + Digits(b)
  {
    if |a| == 0 {
      assert a + b == b;
    } else {
      DigitsAppend(a[1..], b);
      assert (a + b)[1..] == a[1..] + b;
    }
  }

  function DigitValue(c: char): (v: nat)
    requires IsDigit(c)
    ensures v < 10
  {
    c as int - '0' as int
  }

  /** The decimal value of a string of digits, leading zeros allowed, as
      Python's `int` reads it. */
  function DecimalValue(ds: string): nat
    requires forall i :: 0 <= i < |ds| ==> IsDigit(ds[i])
  {
    if |ds| == 0 then 0
    else
      var last := ds[|ds| - 1];
      assert IsDigit(last);
      DecimalValue(ds[..|ds| - 1]) * 10 + DigitValue(last)
  }

  /** The shortest decimal spelling of `n`. */
  function DecimalString(n: nat): (r: string)
    ensures |r| >= 1
    ensures forall i :: 0 <= i < |r| ==> IsDigit(r[i])
  {
    var d := ['0' + (n % 10) as char];
    if n < 10 then d else DecimalString(n / 10) + d
  }

  /** Reading back the decimal spelling of a number gives the number. */
  lemma {:induction false} DecimalRoundTrip(n: nat)
    ensures DecimalValue(DecimalString(n)) == n
  {
    var s := DecimalString(n);
    if n >= 10 {
      DecimalRoundTrip(n / 10);
      assert s[..|s| - 1] == DecimalString(n / 10);
    }
  }

  lemma {:induction false} DigitsOfDigits(ds: string)
    requires forall i :: 0 <= i < |ds| ==> IsDigit(ds[i])
    ensures Digits(ds) == ds
  {
    if |ds| > 0 {
      DigitsOfDigits(ds[1..]);
    }
  }

  /** The camera number: every digit character of the name, in order, read
      as one decimal number. A name without digits has no number. */
  function GetCameraNumber(name: string): (r: Result<nat, NameFailure>)
    ensures r.Err? <==> forall i :: 0 <= i < |name| ==> !IsDigit(name[i])
    ensures r.Err? ==> r.error == NoDigits
  {
    var ds := Digits(name);
    if |ds| == 0 then Err(NoDigits) else Ok(DecimalValue(ds))
  }

  /** A name made of a digit-free prefix and the spelling of `n` has the
      number `n`. */
  lemma CameraNumberOfSuffix(prefix: string, n: nat)
    requires forall i :: 0 <= i < |prefix| ==> !IsDigit(prefix[i])
    ensures GetCameraNumber(prefix + DecimalString(n)) == Ok(n)
  {
    DigitsAppend(prefix, DecimalString(n));
    DigitsOfDigits(DecimalString(n));
    DecimalRoundTrip(n);
    assert Digits(prefix) == "";
    assert Digits(prefix + DecimalString(n)) == DecimalString(n);
  }

  /** Digits are gathered across the whole name, so separate digit groups
      run together. */
  lemma CameraNumberJoinsDigitGroups()
    ensures GetCameraNumber("sh1_cam2") == Ok(12)
  {
    assert "sh1_cam2" == "sh" + ['1'] + "_cam" + ['2'];
    TwoDigitGroups("sh", '1', "_cam", '2');
  }

  /** Two single digits separated by digit-free text read as one two-digit
      number. */
  lemma TwoDigitGroups(a: string, d: char, b: string, e: char)
    requires forall i :: 0 <= i < |a| ==> !IsDigit(a[i])
    requires forall i :: 0 <= i < |b| ==> !IsDigit(b[i])
    requires IsDigit(d) && IsDigit(e)
    ensures GetCameraNumber(a + [d] + b + [e]) == Ok(DigitValue(d) * 10 + DigitValue(e))
  {
    DigitsAppend(a + [d] + b, [e]);
    DigitsAppend(a + [d], b);
    DigitsAppend(a, [d]);
    DigitsNone(a);
    DigitsNone(b);
    assert Digits([d]) == [d];
    assert Digits([e]) == [e];
    var ds := Digits(a + [d] + b + [e]);
    assert ds == [d, e];
    assert DecimalValue([d]) == DigitValue(d) by {
      assert [d][..0] == [];
    }
    assert ds[..1] == [d];
    assert DecimalValue(ds) == DecimalValue([d]) * 10 + DigitValue(e);
  }

  /** `Digits` keeps exactly the digit characters of a name, in order. */
  lemma {:induction false} DigitsFilter(s: string)
    ensures Digits(s) == Seqs.Filter(s, IsDigit)
    decreases |s|
  {
    if |s| > 0 {
      DigitsFilter(s[1..]);
    }
  }

  /** The number of a name is its digit characters, read in order as one
      decimal numeral; so `shot010_cam` has number 10. */
  lemma CameraNumberOfDigits(name: string)
    ensures GetCameraNumber(name).Ok? <==> |Seqs.Filter(name, IsDigit)| > 0
    ensures GetCameraNumber(name).Ok? ==>
              GetCameraNumber(name).value == DecimalValue(Seqs.Filter(name, IsDigit))
  {
    DigitsFilter(name);
  }

  lemma DigitsNone(s: string)
    requires forall i :: 0 <= i < |s| ==> !IsDigit(s[i])
    ensures Digits(s) == ""
  {
  }

  /** Leading zeros do not count. */
  lemma CameraNumberDropsLeadingZeros()
    ensures GetCameraNumber("cam07") == Ok(7)
  {
    var name := "cam07";
    assert name == "cam" + "0" + "7";
    DigitsAppend("cam" + "0", "7");
    DigitsAppend("cam", "0");
    assert Digits("7") == "7";
    assert Digits("0") == "0";
    assert Digits(name) == "07";
    assert "07"[..1] == "0";
  }
}
