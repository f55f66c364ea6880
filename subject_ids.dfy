/**
 * The MESA filename conventions: a subject id is read out of a file name as
 * the first run of four decimal digits (`re.findall(r"(\d{4})", name)[0]`), and
 * a per-subject file name is built from an integer id with the format `{:04d}`.
 */
module SubjectIds {
  import opened Wrappers
  import opened Seqs

  /** The number of digits in a subject id. */
  const IdWidth: nat := 4

  predicate IsDigit(c: char) {
    '0' <= c <= '9'
  }

  predicate AllDigits(s: string) {
    forall k :: 0 <= k < |s| ==> IsDigit(s[k])
  }

  /** No character of `s` is a digit. */
  predicate DigitFree(s: string) {
    forall c :: c in s ==> !IsDigit(c)
  }

  /** Four decimal digits start at index `i` of `name`. */
  predicate RunAt(name: string, i: int) {
    0 <= i && i + IdWidth <= |name| && AllDigits(name[i..i + IdWidth])
  }

  /** `i` is where a left-to-right regular-expression scan finds its first match. */
  predicate FirstRunAt(name: string, i: int) {
    RunAt(name, i) && forall k :: 0 <= k < i ==> !RunAt(name, k)
  }

  /** The scan for `\d{4}`, starting at index `i`. */
  function FirstRunFrom(name: string, i: nat): (r: Option<nat>)
    requires i <= |name|
    ensures r.Some? ==> i <= r.value && RunAt(name, r.value)
    ensures r.Some? ==> forall k :: i <= k < r.value ==> !RunAt(name, k)
    ensures r.None? ==> forall k :: i <= k ==> !RunAt(name, k)
    decreases |name| - i
  {
    if i + IdWidth > |name| then None
    else if AllDigits(name[i..i + IdWidth]) then Some(i)
    else FirstRunFrom(name, i + 1)
  }

  /** `re.findall(r"(\d{4})", name)[0]`: the leftmost four-digit run of the
      name, or `None` where the list of matches is empty and indexing it fails. */
  function SubjectId(name: string): (r: Option<string>)
    ensures r.Some? ==> |r.value| == IdWidth && AllDigits(r.value)
    ensures r.Some? ==> exists i :: FirstRunAt(name, i) && name[i..i + IdWidth] == r.value
    ensures r.None? <==> forall i :: !RunAt(name, i)
  {
    match FirstRunFrom(name, 0)
    case None => None
    case Some(i) => assert FirstRunAt(name, i); Some(name[i..i + IdWidth])
  }

  /** The first run is unique, so it determines the extracted id. */
  lemma SubjectIdAtFirstRun(name: string, i: int)
    requires FirstRunAt(name, i)
    ensures SubjectId(name) == Some(name[i..i + IdWidth])
  {
    var r := SubjectId(name);
    assert r.Some?;
    var i' :| FirstRunAt(name, i') && name[i'..i' + IdWidth] == r.value;
    assert i' == i;
  }

  /** No run of four digits starts inside a digit-free prefix. */
  lemma NoRunInDigitFreePrefix(p: string, s: string, k: int)
    requires DigitFree(p)
    requires 0 <= k < |p|
    ensures !RunAt(p + s, k)
  {
    assert p[k] in p;
    if k + IdWidth <= |p + s| {
      assert (p + s)[k..k + IdWidth][0] == p[k];
    }
  }

  // ---------------------------------------------------------------------------
  // "{:04d}"
  // ---------------------------------------------------------------------------

  function DigitChar(d: nat): (c: char)
    requires d < 10
    ensures IsDigit(c)
  {
    ('0' as int + d) as char
  }

  function DigitValue(c: char): (d: nat)
    requires IsDigit(c)
    ensures d < 10 && DigitChar(d) == c
  {
    c as int - '0' as int
  }

  /** The shortest decimal rendering of `n`, as `str(n)` gives it. ParseDecimal
      is its inverse (DecimalRoundTrip). */
  function Decimal(n: nat): (s: string)
    ensures |s| >= 1 && AllDigits(s)
    ensures n >= 1 ==> s[0] != '0'
    ensures n == 0 ==> s == "0"
    decreases n
  {
    if n < 10 then [DigitChar(n)]
    else
      var head := Decimal(n / 10);
      assert (head + [DigitChar(n % 10)])[0] == head[0];
      head + [DigitChar(n % 10)]
  }

  /** The value of a string of decimal digits, read left to right. */
  function ParseDecimal(s: string): nat
    requires AllDigits(s)
    decreases |s|
  {
    if s == [] then 0 else ParseDecimal(s[..|s| - 1]) * 10 + DigitValue(s[|s| - 1])
  }

  /** Pads `s` on the left with zeros up to `width` characters. */
  function ZeroPad(s: string, width: nat): (r: string)
    ensures |r| == if |s| < width then width else |s|
    ensures r[|r| - |s|..] == s
    ensures forall k :: 0 <= k < |r| - |s| ==> r[k] == '0'
  {
    if |s| < width then Repeat('0', width - |s|) + s else s
  }

  /** `"{:04d}".format(id)`: zero fill to four characters, the sign included. */
  function FormatId(id: int): string {
    if id < 0 then "-" + ZeroPad(Decimal(-id), IdWidth - 1) else ZeroPad(Decimal(id), IdWidth)
  }

  /** A non-negative id renders as digits reading back as the id, four of them
      below 10000 and not cut down above; a negative id keeps three padded
      digits after its minus sign. */
  lemma FormatIdMeaning(id: int)
    ensures id >= 0 ==> AllDigits(FormatId(id)) && ParseDecimal(FormatId(id)) == id
    ensures id >= 0 ==> |FormatId(id)| == if id < 10000 then IdWidth else |Decimal(id)|
    ensures id < 0 ==> FormatId(id)[0] == '-' && AllDigits(FormatId(id)[1..]) && ParseDecimal(FormatId(id)[1..]) == -id
    ensures id < 0 ==> |FormatId(id)| == if id > -1000 then IdWidth else 1 + |Decimal(-id)|
    ensures id >= 1000 ==> FormatId(id)[0] != '0'
    ensures id <= -100 ==> FormatId(id)[1] != '0'
  {
    var n := if id < 0 then -id else id;
    DecimalRoundTrip(n);
    DecimalLength(n);
    if id < 0 {
      assert FormatId(id)[1..] == ZeroPad(Decimal(n), IdWidth - 1);
      ParseZeroPadded(Decimal(n), IdWidth - 1);
    } else {
      ParseZeroPadded(Decimal(n), IdWidth);
    }
  }

  /** Reading back the decimal rendering gives the number. */
  lemma {:induction false} DecimalRoundTrip(n: nat)
    ensures ParseDecimal(Decimal(n)) == n
    decreases n
  {
    var s := Decimal(n);
    if n < 10 {
      assert s[..0] == [];
    } else {
      assert s[..|s| - 1] == Decimal(n / 10);
      DecimalRoundTrip(n / 10);
    }
  }

  /** Numbers below 10000 take at most four digits, larger ones at least five. */
  lemma DecimalLength(n: nat)
    ensures n < 10 ==> |Decimal(n)| == 1
    ensures n < 100 ==> |Decimal(n)| <= 2
    ensures n < 1000 ==> |Decimal(n)| <= 3
    ensures n < 10000 ==> |Decimal(n)| <= 4
    ensures n >= 1000 ==> |Decimal(n)| >= 4
    ensures n >= 10000 ==> |Decimal(n)| >= 5
  {
    if n >= 10 {
      var m := n / 10;
      if m >= 10 {
        var m2 := m / 10;
        if m2 >= 10 {
          assert |Decimal(m2)| == 1 + |Decimal(m2 / 10)|;
        }
      }
    }
  }

  /** Leading zeros do not change the value of a digit string. */
  lemma {:induction false} ParseLeadingZeros(z: nat, s: string)
    requires AllDigits(s)
    ensures AllDigits(Repeat('0', z) + s)
    ensures ParseDecimal(Repeat('0', z) + s) == ParseDecimal(s)
    decreases |s|
  {
    var t := Repeat('0', z) + s;
    if s == [] {
      assert t == Repeat('0', z);
      ParseZeros(z);
    } else {
      assert t[..|t| - 1] == Repeat('0', z) + s[..|s| - 1];
      ParseLeadingZeros(z, s[..|s| - 1]);
    }
  }

  /** A string of zeros reads as 0. */
  lemma {:induction false} ParseZeros(z: nat)
    ensures AllDigits(Repeat('0', z))
    ensures ParseDecimal(Repeat('0', z)) == 0
    decreases z
  {
    if z > 0 {
      assert Repeat('0', z)[..z - 1] == Repeat('0', z - 1);
      ParseZeros(z - 1);
    }
  }

  /** Zero padding keeps the value. */
  lemma ParseZeroPadded(s: string, width: nat)
    requires AllDigits(s)
    ensures AllDigits(ZeroPad(s, width)) && ParseDecimal(ZeroPad(s, width)) == ParseDecimal(s)
  {
    if |s| < width {
      ParseLeadingZeros(width - |s|, s);
    }
  }

  /** The name of a subject's sleep-stage annotation file, `mesa-sleep-{:04d}-nsrr.xml`
      (the directory part of the path holds no digit and is left to path handling). */
  function PsgFileName(id: int): string {
    "mesa-sleep-" + FormatId(id) + "-nsrr.xml"
  }

  /** After a digit-free prefix, a run of four digits is the first run. */
  lemma SubjectIdAfterPrefix(p: string, s: string)
    requires DigitFree(p) && |s| >= IdWidth && AllDigits(s[..IdWidth])
    ensures SubjectId(p + s) == Some(s[..IdWidth])
  {
    var name := p + s;
    assert name[|p|..|p| + IdWidth] == s[..IdWidth];
    forall k | 0 <= k < |p| ensures !RunAt(name, k) {
      NoRunInDigitFreePrefix(p, s, k);
    }
    assert FirstRunAt(name, |p|);
    SubjectIdAtFirstRun(name, |p|);
  }

  /** The name built from a non-negative id: a digit-free prefix, then at least
      four digits. */
  lemma NonNegativeNameShape(id: int)
    requires id >= 0
    ensures PsgFileName(id) == "mesa-sleep-" + (FormatId(id) + "-nsrr.xml")
    ensures DigitFree("mesa-sleep-")
    ensures |FormatId(id)| >= IdWidth && AllDigits(FormatId(id)[..IdWidth])
  {
    FormatIdMeaning(id);
    DecimalLength(id);
    assert DigitFree("mesa-sleep-");
  }

  /** For an id of at most four digits, the id read out of its file name is its
      four-digit rendering, and that reads back as the id. */
  lemma PsgFileNameRoundTrip(id: int)
    requires 0 <= id < 10000
    ensures SubjectId(PsgFileName(id)) == Some(FormatId(id))
    ensures |FormatId(id)| == IdWidth && ParseDecimal(FormatId(id)) == id
  {
    FormatIdMeaning(id);
    NonNegativeNameShape(id);
    var f := FormatId(id);
    SubjectIdAfterPrefix("mesa-sleep-", f + "-nsrr.xml");
    assert (f + "-nsrr.xml")[..IdWidth] == f;
  }

  /** For an id of five digits or more, the key read out of its file name is
      only its first four digits, which differ from the id's rendering. */
  lemma WideIdKeyTruncated(id: int)
    requires id >= 10000
    ensures SubjectId(PsgFileName(id)) == Some(FormatId(id)[..IdWidth])
    ensures SubjectId(PsgFileName(id)) != Some(FormatId(id))
  {
    FormatIdMeaning(id);
    DecimalLength(id);
    NonNegativeNameShape(id);
    var f := FormatId(id);
    SubjectIdAfterPrefix("mesa-sleep-", f + "-nsrr.xml");
    assert (f + "-nsrr.xml")[..IdWidth] == f[..IdWidth];
    assert |f[..IdWidth]| < |f|;
  }

  /** Only the middle part of `p + d + q` can hold digits when `p` and `q` hold none. */
  lemma DigitsInMiddle(p: string, d: string, q: string, k: int)
    requires DigitFree(p) && DigitFree(q)
    ensures 0 <= k < |p| ==> !IsDigit((p + d + q)[k])
    ensures |p| + |d| <= k < |p + d + q| ==> !IsDigit((p + d + q)[k])
  {
    if 0 <= k < |p| {
      assert (p + d + q)[k] == p[k];
      assert p[k] in p;
    } else if |p| + |d| <= k < |p + d + q| {
      assert (p + d + q)[k] == q[k - |p| - |d|];
      assert q[k - |p| - |d|] in q;
    }
  }

  /** A name whose digits all lie in fewer than four consecutive places holds no run. */
  lemma NoRunInShortSpan(name: string, lo: int, hi: int)
    requires hi - lo < IdWidth
    requires forall k :: 0 <= k < |name| && IsDigit(name[k]) ==> lo <= k < hi
    ensures forall i :: !RunAt(name, i)
  {
    forall i ensures !RunAt(name, i) {
      if 0 <= i && i + IdWidth <= |name| {
        if i < lo {
          assert name[i..i + IdWidth][0] == name[i];
        } else {
          assert name[i..i + IdWidth][3] == name[i + 3];
        }
      }
    }
  }

  /** The name built from a negative id above -1000: a fixed prefix, three digits
      and a fixed suffix. */
  lemma NegativeNameShape(id: int)
    requires -1000 < id < 0
    ensures |FormatId(id)[1..]| == 3
    ensures PsgFileName(id) == "mesa-sleep--" + FormatId(id)[1..] + "-nsrr.xml"
  {
    FormatIdMeaning(id);
    var f := FormatId(id);
    assert f == [f[0]] + f[1..];
  }

  /** Fewer than four characters between digit-free parts hold no run. */
  lemma NoRunAroundShortPart(p: string, d: string, q: string)
    requires DigitFree(p) && DigitFree(q) && |d| < IdWidth
    ensures forall i :: !RunAt(p + d + q, i)
  {
    var name := p + d + q;
    forall k | 0 <= k < |name| && IsDigit(name[k]) ensures |p| <= k < |p| + |d| {
      DigitsInMiddle(p, d, q, k);
    }
    NoRunInShortSpan(name, |p|, |p| + |d|);
  }

  /** The fixed parts of the file name around a negative id hold no digit. */
  lemma NegativeNameAffixesDigitFree()
    ensures DigitFree("mesa-sleep--") && DigitFree("-nsrr.xml")
  {
    assert DigitFree("mesa-sleep--");
  }

  /** For an id from -999 to -1 the file name holds only three digits in a row,
      so no key can be read out of it. */
  lemma NegativeIdHasNoKey(id: int)
    requires -1000 < id < 0
    ensures SubjectId(PsgFileName(id)) == None
  {
    NegativeNameShape(id);
    NegativeNameAffixesDigitFree();
    NoRunAroundShortPart("mesa-sleep--", FormatId(id)[1..], "-nsrr.xml");
  }
}
