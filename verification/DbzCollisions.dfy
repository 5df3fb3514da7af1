/** Keys on which the hash function of innbbsd/dbz.c agrees, and what dbz makes of them with every
    configuration. */
module DbzCollisions {
  import opened Basics
  import opened DbzConfig
  import opened DbzIndex
  import opened HistoryModel
  import DateText
  import DbzHash
  import Slots

  const HIGH: Byte := 0x80

  /** hash() */
  function HashOf(key: Bytes): nat {
    DbzHash.HashFrom(DbzHash.Entry, 0, key) as nat
  }

  /** A leading character of which only the high bit is set does not show in the hash. */
  lemma HighUnseen(key: Bytes)
    ensures HashOf([HIGH] + key) == HashOf(key)
  {
    NothingAdded();
    assert ([HIGH] + key)[1..] == key;
  }

  lemma NothingAdded()
    ensures DbzHash.Round(DbzHash.Entry, 0, HIGH) == 0
  {
  }

  /** An id of one such character, never stored, is answered with the line of two. */
  lemma PrefixAnswered(c: Config, rest: Bytes)
    requires c.Valid() && 0 !in rest
    ensures var s, r := c.Scheme(HashOf), Record([HIGH, HIGH], rest);
      Sound(s) && AllOkay(s, LogOf([r]))
      && Reply(s, [r], [HIGH]) == AnswerAt([r], r.id) && AnswerAt([r], [HIGH]) == Missing
  {
    var s, r := c.Scheme(HashOf), Record([HIGH, HIGH], rest);
    c.SchemeSound(HashOf);
    ZeroOkay(c);
    OneRecord(r);
    HighUnseen([HIGH]);
    assert [HIGH] + [HIGH] == r.id && [HIGH] <= r.id;
    PrefixIsAnswered(s, r, [HIGH]);
  }

  lemma ZeroOkay(c: Config)
    requires c.Valid()
    ensures c.Okay(0)
  {
    NothingThere(c.taghere);
  }

  lemma NothingThere(here: Slots.Word)
    ensures Slots.Storable(here, 0)
  {
  }

  function TwoLines(): Bytes { [HIGH, HIGH, 66, 62, 9, 66, 62, 9] }

  lemma LinesStand(near: Entry, e: Entry)
    requires near == Entry([66, 62], 5) && e == Entry([HIGH, HIGH, 66, 62], 0)
    ensures HoldsLine(TwoLines(), 9, near) && HoldsLine(TwoLines(), 9, e)
    ensures Compare(TwoLines(), 9, e.key, 0) == Same && Compare(TwoLines(), 9, e.key, 5) == Short
  {
    var base := TwoLines();
    assert base[0..4] == e.key && base[5..8] == near.key + [9] && base[0..5] == e.key + [9];
  }

  /** The two lines, stored in the other order: the second stored is not found. */
  ghost predicate HidesLine<V(!new)>(s: Scheme<V>, near: Entry, e: Entry) {
    var log, cmp := [near, e], Comparer(TwoLines(), 9, [HIGH, HIGH, 66, 62]);
    && Sound(s) && AllOkay(s, log) && Distinguishes(cmp, log, e.key)
    && HoldsLine(TwoLines(), 9, near) && HoldsLine(TwoLines(), 9, e)
    && First(log, e.key) == 1 && Scan(s, Index(s, log), cmp, s.hash(e.key), 0) == None
  }

  lemma HidesWithEqualHash<V(!new)>(s: Scheme<V>, near: Entry, e: Entry)
    requires near == Entry([66, 62], 5) && e == Entry([HIGH, HIGH, 66, 62], 0)
    requires Sound(s) && s.okay(0) && s.okay(5) && s.hash(near.key) == s.hash(e.key)
    ensures HidesLine(s, near, e)
  {
    LinesStand(near, e);
    Hidden(s, near, e, Comparer(TwoLines(), 9, e.key));
  }

  lemma LineHidden(c: Config)
    requires c.Valid() && c.Okay(5)
    ensures HidesLine(c.Scheme(HashOf), Entry([66, 62], 5), Entry([HIGH, HIGH, 66, 62], 0))
  {
    c.SchemeSound(HashOf);
    ZeroOkay(c);
    HighUnseen([66, 62]);
    HighUnseen([HIGH] + [66, 62]);
    assert [HIGH] + ([HIGH] + [66, 62]) == [HIGH, HIGH, 66, 62];
    HidesWithEqualHash(c.Scheme(HashOf), Entry([66, 62], 5), Entry([HIGH, HIGH, 66, 62], 0));
  }
}
