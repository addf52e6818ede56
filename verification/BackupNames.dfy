/**
 Names of backup files (payroll/db.py): a prefix, a fixed-width time stamp and ".db". Because the
 stamp has a fixed width, the order of names under one prefix is the order of time, and a name
 tells its stamp.
 */
module BackupNames {
  import opened Text

  datatype Stamp = Stamp(year: nat, month: nat, day: nat, hour: nat, minute: nat, second: nat)

  /** A moment `strftime("%Y%m%d_%H%M%S")` prints in fifteen characters. */
  predicate ValidStamp(t: Stamp) {
    1000 <= t.year <= 9999 && 1 <= t.month <= 12 && 1 <= t.day <= 31 && t.hour < 24 && t.minute < 60 && t.second < 60
  }

  predicate Earlier(a: Stamp, b: Stamp) {
    a.year < b.year || (a.year == b.year && (
    a.month < b.month || (a.month == b.month && (
    a.day < b.day || (a.day == b.day && (
    a.hour < b.hour || (a.hour == b.hour && (
    a.minute < b.minute || (a.minute == b.minute && a.second < b.second)))))))))
  }

  function ClockText(t: Stamp): string {
    PadDec(t.hour, 2) + (PadDec(t.minute, 2) + PadDec(t.second, 2))
  }

  function StampText(t: Stamp): string {
    PadDec(t.year, 4) + (PadDec(t.month, 2) + (PadDec(t.day, 2) + ("_" + ClockText(t))))
  }

  function FileName(prefix: string, t: Stamp): string {
    prefix + ("_" + (StampText(t) + ".db"))
  }

  /** What `prune_backups` looks for: `startswith(prefix)` and `endswith(".db")`. */
  predicate Matches(prefix: string, name: string) {
    prefix <= name && |name| >= 3 && name[|name| - 3..] == ".db"
  }

  lemma ClockOrder(a: Stamp, b: Stamp)
    requires ValidStamp(a) && ValidStamp(b)
    ensures |ClockText(a)| == |ClockText(b)| == 6
    ensures StrLess(ClockText(a), ClockText(b)) <==>
            a.hour < b.hour || (a.hour == b.hour &&
            (a.minute < b.minute || (a.minute == b.minute && a.second < b.second)))
    ensures ClockText(a) == ClockText(b) <==> a.hour == b.hour && a.minute == b.minute && a.second == b.second
  {
    hide PadDec, StrLess;
    assert Pow10(2) == 100;
    PaddedOrder(a.hour, b.hour, 2);
    PaddedOrder(a.minute, b.minute, 2);
    PaddedOrder(a.second, b.second, 2);
    PieceOrder(PadDec(a.minute, 2), PadDec(a.second, 2), PadDec(b.minute, 2), PadDec(b.second, 2));
    PieceOrder(PadDec(a.hour, 2), PadDec(a.minute, 2) + PadDec(a.second, 2),
               PadDec(b.hour, 2), PadDec(b.minute, 2) + PadDec(b.second, 2));
  }

  lemma StampOrder(a: Stamp, b: Stamp)
    requires ValidStamp(a) && ValidStamp(b)
    ensures |StampText(a)| == |StampText(b)| == 15
    ensures StrLess(StampText(a), StampText(b)) <==> Earlier(a, b)
    ensures StampText(a) == StampText(b) <==> a == b
  {
    hide PadDec, StrLess, ClockText;
    assert Pow10(2) == 100;
    assert Pow10(4) == 10000;
    ClockOrder(a, b);
    PaddedOrder(a.year, b.year, 4);
    PaddedOrder(a.month, b.month, 2);
    PaddedOrder(a.day, b.day, 2);
    StrLessTotal("_", "_");
    var clockA, clockB := "_" + ClockText(a), "_" + ClockText(b);
    var dayA, dayB := PadDec(a.day, 2) + clockA, PadDec(b.day, 2) + clockB;
    PieceOrder("_", ClockText(a), "_", ClockText(b));
    PieceOrder(PadDec(a.day, 2), clockA, PadDec(b.day, 2), clockB);
    PieceOrder(PadDec(a.month, 2), dayA, PadDec(b.month, 2), dayB);
    PieceOrder(PadDec(a.year, 4), PadDec(a.month, 2) + dayA, PadDec(b.year, 4), PadDec(b.month, 2) + dayB);
  }

  /** Under one prefix, names are ordered as their stamps. */
  lemma NameOrder(prefix: string, a: Stamp, b: Stamp)
    requires ValidStamp(a) && ValidStamp(b)
    ensures StrLess(FileName(prefix, a), FileName(prefix, b)) <==> Earlier(a, b)
  {
    hide StrLess, StampText, Earlier;
    StampOrder(a, b);
    StrLessTotal(prefix, prefix);
    StrLessTotal("_", "_");
    StrLessTotal(".db", ".db");
    PieceOrder(StampText(a), ".db", StampText(b), ".db");
    PieceOrder("_", StampText(a) + ".db", "_", StampText(b) + ".db");
    PieceOrder(prefix, "_" + (StampText(a) + ".db"), prefix, "_" + (StampText(b) + ".db"));
  }

  /** Whatever the prefixes, equal names carry equal stamps. */
  lemma NameTellsStamp(p: string, a: Stamp, q: string, b: Stamp)
    requires ValidStamp(a) && ValidStamp(b) && FileName(p, a) == FileName(q, b)
    ensures a == b
  {
    hide StampText;
    StampOrder(a, b);
    StampOrder(a, a);
    StampOrder(b, b);
    var n, m := FileName(p, a), FileName(q, b);
    assert n[|n| - 18..|n| - 3] == StampText(a);
    assert m[|m| - 18..|m| - 3] == StampText(b);
  }

  lemma NameMatches(prefix: string, t: Stamp)
    ensures Matches(prefix, FileName(prefix, t))
  {
    hide StampText;
    var name := FileName(prefix, t);
    assert name[..|prefix|] == prefix;
    assert name[|name| - 3..] == ".db";
  }

  /** The name of a backup taken on 20 March 2024 at 01:02:03. */
  lemma NameLayout()
    ensures FileName("auto_backup", Stamp(2024, 3, 20, 1, 2, 3)) == "auto_backup_20240320_010203.db"
  {
    hide PadDec, Val;
    StampNumbers();
    DigitsOf(2024, 4, "2024");
    DigitsOf(3, 2, "03");
    DigitsOf(20, 2, "20");
    DigitsOf(1, 2, "01");
    DigitsOf(2, 2, "02");
    assert "2024" + ("03" + ("20" + ("_" + ("01" + ("02" + "03"))))) == "20240320_010203";
    assert "auto_backup" + ("_" + ("20240320_010203" + ".db")) == "auto_backup_20240320_010203.db";
  }

  lemma StampNumbers()
    ensures Val("2024") == 2024 && Val("03") == 3 && Val("20") == 20 && Val("01") == 1 && Val("02") == 2
  {
    ValSnoc("", '2');
    ValSnoc("2", '0');
    ValSnoc("20", '2');
    ValSnoc("202", '4');
    ValSnoc("", '0');
    ValSnoc("0", '1');
    ValSnoc("0", '2');
    ValSnoc("0", '3');
    assert "" + ['2'] == "2" && "2" + ['0'] == "20" && "20" + ['2'] == "202" && "202" + ['4'] == "2024";
    assert "" + ['0'] == "0" && "0" + ['1'] == "01" && "0" + ['2'] == "02" && "0" + ['3'] == "03";
  }

  lemma OtherPrefix(prefix: string, p: string, t: Stamp)
    requires prefix != "" && p != "" && prefix[0] != p[0]
    ensures !Matches(prefix, FileName(p, t))
  {
    hide StampText;
    assert FileName(p, t)[0] == p[0];
  }
}
