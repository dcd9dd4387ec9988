/** File names of the disk tier: the decimal inode and offset of a block, joined by an underscore. */
module FileNames {

  datatype BlockKey = BlockKey(inode: nat, offset: nat)

  function Digit(d: nat): (c: char)
    requires d < 10
    ensures c != '_'
  {
    "0123456789"[d]
  }

  /** `n` in decimal, as the `{}` formatter prints it. */
  function Decimal(n: nat): (s: string)
    ensures s != [] && '_' !in s
  {
    if n < 10 then [Digit(n)] else Decimal(n / 10) + [Digit(n % 10)]
  }

  lemma {:induction false} DecimalInjective(a: nat, b: nat)
    requires Decimal(a) == Decimal(b)
    ensures a == b
    decreases a
  {
    var s, t := Decimal(a), Decimal(b);
    assert s[|s| - 1] == Digit(a % 10) && t[|t| - 1] == Digit(b % 10);
    assert a % 10 == b % 10;
    if a >= 10 && b >= 10 {
      assert s[..|s| - 1] == Decimal(a / 10) && t[..|t| - 1] == Decimal(b / 10);
      DecimalInjective(a / 10, b / 10);
    }
  }

  function FileName(key: BlockKey): string {
    Decimal(key.inode) + "_" + Decimal(key.offset)
  }

  lemma {:induction false} SplitAtUnderscore(a: string, b: string, c: string, d: string)
    requires '_' !in a && '_' !in c
    requires a + "_" + b == c + "_" + d
    ensures a == c && b == d
  {
    var s := a + "_" + b;
    assert s[|a|] == '_' && s[|c|] == '_';
    assert forall i :: 0 <= i < |a| ==> s[i] == a[i] && a[i] in a;
    assert forall i :: 0 <= i < |c| ==> s[i] == c[i] && c[i] in c;
    assert a == s[..|a|] && c == s[..|c|];
    assert b == s[|a| + 1..] && d == s[|c| + 1..];
  }

  /** Two blocks never share a file. */
  lemma FileNameInjective(j: BlockKey, k: BlockKey)
    ensures FileName(j) == FileName(k) <==> j == k
  {
    if FileName(j) == FileName(k) {
      SplitAtUnderscore(Decimal(j.inode), Decimal(j.offset), Decimal(k.inode), Decimal(k.offset));
      DecimalInjective(j.inode, k.inode);
      DecimalInjective(j.offset, k.offset);
    }
  }
}
