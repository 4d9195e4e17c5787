/** `getFileSize` of index.php, index2.php and index3.php: the size of a
    file in a human-readable form. Sizes below 1024 are written out exactly
    in bytes; larger ones are divided by 1024, 1024² or 1024³ and rounded
    to two decimals. The model keeps which branch is taken and the exact
    byte count; the rounded number is not modelled. */
module FileSize {
  import opened FileSystem

  /** The unit a size is reported in. */
  datatype Unit = Kilobytes | Megabytes | Gigabytes

  /** What `getFileSize` returns: "<size> bytes", or a rounded amount in a
      larger unit. */
  datatype SizeText = Exact(digits: string) | Rounded(unit: Unit)

  /** The divisor of each unit, as written in the thresholds. */
  function Scale(u: Unit): nat {
    match u
    case Kilobytes => 1024
    case Megabytes => 1048576
    case Gigabytes => 1073741824
  }

  /** Position of a unit in increasing order of size. */
  function Rank(u: Unit): nat {
    match u
    case Kilobytes => 0
    case Megabytes => 1
    case Gigabytes => 2
  }

  predicate IsDigit(c: char) {
    '0' <= c <= '9'
  }

  /** A decimal numeral as PHP writes an integer: digits only, and no
      leading zero unless the number is zero. */
  predicate IsNumeral(s: string) {
    && |s| > 0
    && (forall i :: 0 <= i < |s| ==> IsDigit(s[i]))
    && (s[0] == '0' ==> |s| == 1)
  }

  /** The decimal numeral of `n`, as `$size . ' bytes'` converts it. */
  function Decimal(n: nat): (s: string)
    ensures IsNumeral(s)
  {
    if n < 10 then [('0' as int + n) as char]
    else
      var init := Decimal(n / 10);
      assert init[0] != '0';
      init + [('0' as int + n % 10) as char]
  }

  function DigitValue(c: char): nat
    requires IsDigit(c)
  {
    c as int - '0' as int
  }

  /** The number a string of digits denotes. */
  function NumeralValue(s: string): nat
    requires forall i :: 0 <= i < |s| ==> IsDigit(s[i])
  {
    if s == [] then 0
    else NumeralValue(s[..|s| - 1]) * 10 + DigitValue(s[|s| - 1])
  }

  /** The numeral denotes the size it was made from. */
  lemma {:induction false} DecimalValue(n: nat)
    ensures NumeralValue(Decimal(n)) == n
  {
    if n >= 10 {
      DecimalValue(n / 10);
      var s := Decimal(n);
      assert s[..|s| - 1] == Decimal(n / 10);
    }
  }

  /** Every numeral is the decimal form of its value, so the two are
      inverse to each other. */
  lemma {:induction false} NumeralDecimal(s: string)
    requires IsNumeral(s)
    ensures Decimal(NumeralValue(s)) == s
    decreases |s|
  {
    var init := s[..|s| - 1];
    var d := DigitValue(s[|s| - 1]);
    if |init| == 0 {
      assert s == [s[0]];
    } else {
      assert IsNumeral(init) by {
        if init[0] == '0' {
          assert false;
        }
      }
      NumeralDecimal(init);
      var v := NumeralValue(init);
      assert v != 0 by {
        if v == 0 {
          assert false;
        }
      }
      assert NumeralValue(s) == v * 10 + d;
      assert (v * 10 + d) / 10 == v && (v * 10 + d) % 10 == d;
      assert s == init + [s[|s| - 1]];
    }
  }

  /** index.php lines 56-70 (index2.php lines 56-70, index3.php lines
      55-61): exact bytes below 1024; otherwise the largest of KB, MB and GB
      whose divisor the size reaches, by the thresholds 1048576 and
      1073741824. */
  function GetFileSize(size: nat): (r: SizeText)
    ensures r.Exact? <==> size < 1024
    ensures r.Exact? ==> IsNumeral(r.digits) && NumeralValue(r.digits) == size
    ensures r.Rounded? ==> Scale(r.unit) <= size
    ensures r.Rounded? && r.unit != Gigabytes ==> size < 1024 * Scale(r.unit)
  {
    DecimalValue(size);
    if size < 1024 then Exact(Decimal(size))
    else if size < 1048576 then Rounded(Kilobytes)
    else if size < 1073741824 then Rounded(Megabytes)
    else Rounded(Gigabytes)
  }

  /** `getFileSize($path)` for the path of a scanned file record:
      `filesize` reads the size of the file node the path names. */
  function FileSizeText(c: Node): SizeText
    requires c.File?
  {
    GetFileSize(c.size)
  }

  /** The text `getFileSize` prints for an exact size. */
  function ExactText(t: SizeText): string
    requires t.Exact?
  {
    t.digits + " bytes"
  }

  /** A larger file never gets a smaller unit, and a file reported in bytes
      is smaller than any file reported in a larger unit. */
  lemma GetFileSizeMonotone(a: nat, b: nat)
    requires a <= b
    ensures GetFileSize(b).Exact? ==> GetFileSize(a).Exact?
    ensures GetFileSize(a).Rounded? && GetFileSize(b).Rounded? ==>
      Rank(GetFileSize(a).unit) <= Rank(GetFileSize(b).unit)
  {
  }

  /** Two sizes get the same exact text only when they are equal. */
  lemma ExactTextInjective(a: nat, b: nat)
    requires a < 1024 && b < 1024
    ensures ExactText(GetFileSize(a)) == ExactText(GetFileSize(b)) ==> a == b
  {
    var ta, tb := ExactText(GetFileSize(a)), ExactText(GetFileSize(b));
    if ta == tb {
      var da, db := GetFileSize(a).digits, GetFileSize(b).digits;
      assert |da| == |db|;
      assert da == ta[..|da|] && db == tb[..|db|];
    }
  }
}
