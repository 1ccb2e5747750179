// The fixed-width text in which the database keeps points in time, and the order SQL
// sees when it compares such text.
module Timestamps {

  datatype Stamp = Stamp(year: nat, month: nat, day: nat, hour: nat, minute: nat, second: nat)

  predicate InRange(s: Stamp) {
    s.year <= 9999 && s.month <= 99 && s.day <= 99 && s.hour <= 99 && s.minute <= 99 && s.second <= 99
  }

  function Pow10(w: nat): nat {
    if w == 0 then 1 else 10 * Pow10(w - 1)
  }

  // The last w decimal digits of n.
  function Pad(n: nat, w: nat): (r: string)
    ensures |r| == w
  {
    if w == 0 then "" else Pad(n / 10, w - 1) + [('0' as int + n % 10) as char]
  }

  // The format "%Y-%m-%d %H:%M:%S".
  function Format(s: Stamp): string {
    Pad(s.year, 4) + ("-" + (Pad(s.month, 2) + ("-" + (Pad(s.day, 2) + (" " +
    (Pad(s.hour, 2) + (":" + (Pad(s.minute, 2) + (":" + Pad(s.second, 2))))))))))
  }

  // Comparison of text, character by character.
  predicate TextLess(a: string, b: string) {
    if a == [] then b != []
    else b != [] && (a[0] < b[0] || (a[0] == b[0] && TextLess(a[1..], b[1..])))
  }

  predicate Earlier(a: Stamp, b: Stamp) {
    if a.year != b.year then a.year < b.year
    else if a.month != b.month then a.month < b.month
    else if a.day != b.day then a.day < b.day
    else if a.hour != b.hour then a.hour < b.hour
    else if a.minute != b.minute then a.minute < b.minute
    else a.second < b.second
  }

  // Equal-width prefixes decide first.
  lemma {:induction false} TextLessByParts(p: string, q: string, x: string, y: string)
    requires |p| == |q|
    ensures TextLess(p + x, q + y) <==> if p == q then TextLess(x, y) else TextLess(p, q)
  {
    if p == [] {
      assert p + x == x && q + y == y;
    } else {
      assert (p + x)[1..] == p[1..] + x && (q + y)[1..] == q[1..] + y;
      assert p == q <==> p[0] == q[0] && p[1..] == q[1..] by {
        assert p == [p[0]] + p[1..] && q == [q[0]] + q[1..];
      }
      TextLessByParts(p[1..], q[1..], x, y);
    }
  }

  lemma DigitLess(a: nat, b: nat)
    requires a < 10 && b < 10
    ensures TextLess([('0' as int + a) as char], [('0' as int + b) as char]) <==> a < b
    ensures [('0' as int + a) as char] == [('0' as int + b) as char] <==> a == b
  {
  }

  // Padded numbers order as the numbers do, and are equal only when those are.
  lemma {:induction false} PadOrder(a: nat, b: nat, w: nat)
    requires a < Pow10(w) && b < Pow10(w)
    ensures TextLess(Pad(a, w), Pad(b, w)) <==> a < b
    ensures Pad(a, w) == Pad(b, w) <==> a == b
  {
    if w > 0 {
      PadOrder(a / 10, b / 10, w - 1);
      DigitLess(a % 10, b % 10);
      var da, db := [('0' as int + a % 10) as char], [('0' as int + b % 10) as char];
      TextLessByParts(Pad(a / 10, w - 1), Pad(b / 10, w - 1), da, db);
      assert Pad(a, w)[..w - 1] == Pad(a / 10, w - 1) && Pad(a, w)[w - 1..] == da;
      assert Pad(b, w)[..w - 1] == Pad(b / 10, w - 1) && Pad(b, w)[w - 1..] == db;
    }
  }

  lemma FieldFirst(a: nat, b: nat, w: nat, sep: string, x: string, y: string)
    requires a < Pow10(w) && b < Pow10(w)
    ensures TextLess(Pad(a, w) + (sep + x), Pad(b, w) + (sep + y)) <==> a < b || (a == b && TextLess(x, y))
  {
    PadOrder(a, b, w);
    TextLessByParts(Pad(a, w), Pad(b, w), sep + x, sep + y);
    TextLessByParts(sep, sep, x, y);
  }

  // Comparing the formatted text compares the points in time.
  lemma FormatOrder(a: Stamp, b: Stamp)
    requires InRange(a) && InRange(b)
    ensures TextLess(Format(a), Format(b)) <==> Earlier(a, b)
  {
    assert Pow10(2) == 100 && Pow10(4) == 10000;
    var a5, b5 := Pad(a.second, 2), Pad(b.second, 2);
    var a4, b4 := Pad(a.minute, 2) + (":" + a5), Pad(b.minute, 2) + (":" + b5);
    var a3, b3 := Pad(a.hour, 2) + (":" + a4), Pad(b.hour, 2) + (":" + b4);
    var a2, b2 := Pad(a.day, 2) + (" " + a3), Pad(b.day, 2) + (" " + b3);
    var a1, b1 := Pad(a.month, 2) + ("-" + a2), Pad(b.month, 2) + ("-" + b2);
    PadOrder(a.second, b.second, 2);
    FieldFirst(a.minute, b.minute, 2, ":", a5, b5);
    FieldFirst(a.hour, b.hour, 2, ":", a4, b4);
    FieldFirst(a.day, b.day, 2, " ", a3, b3);
    FieldFirst(a.month, b.month, 2, "-", a2, b2);
    FieldFirst(a.year, b.year, 4, "-", a1, b1);
  }
}
