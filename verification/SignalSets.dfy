/**
 Signal sets (`SigSet`, kernel/src/syscall/types.rs, and the sigset helpers of
 kernel/src/syscall/process.rs): sixteen 64-bit words, each modelled as its 64 bits.
 */
module SignalSets {
  type Word = w: seq<bool> | |w| == 64 witness seq(64, _ => false)

  type SigSet = s: seq<Word> | |s| == 16 witness seq(16, _ => seq(64, _ => false))

  function EmptySet(): SigSet { seq(16, _ => EmptyWord()) }

  function EmptyWord(): Word { seq(64, _ => false) }

  /** The word 1 << n. */
  function OneBit(n: nat): (w: Word) { seq(64, i => i == n) }

  function Or(v: Word, w: Word): (r: Word) { seq(64, i requires 0 <= i < 64 => v[i] || w[i]) }

  function And(v: Word, w: Word): (r: Word) { seq(64, i requires 0 <= i < 64 => v[i] && w[i]) }

  function Not(w: Word): (r: Word) { seq(64, i requires 0 <= i < 64 => !w[i]) }

  predicate NonZero(w: Word) { exists i :: 0 <= i < 64 && w[i] }

  /** Signals a set can hold. */
  predicate IsSignal(sig: nat) { 1 <= sig <= 1024 }

  function WordOf(sig: nat): nat
    requires IsSignal(sig)
  {
    (sig - 1) / 64
  }

  function BitOf(sig: nat): nat
    requires IsSignal(sig)
  {
    (sig - 1) % 64
  }

  predicate Contains(s: SigSet, sig: nat)
    requires IsSignal(sig)
  {
    NonZero(And(s[WordOf(sig)], OneBit(BitOf(sig))))
  }

  function Add(s: SigSet, sig: nat): SigSet
    requires IsSignal(sig)
  {
    s[WordOf(sig) := Or(s[WordOf(sig)], OneBit(BitOf(sig)))]
  }

  function Remove(s: SigSet, sig: nat): SigSet
    requires IsSignal(sig)
  {
    s[WordOf(sig) := And(s[WordOf(sig)], Not(OneBit(BitOf(sig))))]
  }

  function Union(s: SigSet, t: SigSet): SigSet { seq(16, i requires 0 <= i < 16 => Or(s[i], t[i])) }

  function Minus(s: SigSet, t: SigSet): SigSet { seq(16, i requires 0 <= i < 16 => And(s[i], Not(t[i]))) }

  // ----- What the words mean -----

  /** Signal n is bit n - 1, counted from bit 0 of the first word. */
  lemma ContainsBit(s: SigSet, sig: nat)
    requires IsSignal(sig)
    ensures WordOf(sig) == (sig - 1) / 64 && BitOf(sig) == (sig - 1) % 64
    ensures Contains(s, sig) <==> s[(sig - 1) / 64][(sig - 1) % 64]
  {
    var w := And(s[WordOf(sig)], OneBit(BitOf(sig)));
    assert w[BitOf(sig)] == s[WordOf(sig)][BitOf(sig)];
  }

  lemma SamePlace(sig: nat, t: nat)
    requires IsSignal(sig) && IsSignal(t)
    ensures WordOf(sig) == WordOf(t) && BitOf(sig) == BitOf(t) <==> sig == t
  {
  }

  lemma EmptyMeaning(t: nat)
    requires IsSignal(t)
    ensures !Contains(EmptySet(), t)
  {
  }

  lemma AddMeaning(s: SigSet, sig: nat, t: nat)
    requires IsSignal(sig) && IsSignal(t)
    ensures Contains(Add(s, sig), t) <==> t == sig || Contains(s, t)
  {
    ContainsBit(s, t);
    ContainsBit(Add(s, sig), t);
    SamePlace(sig, t);
  }

  lemma RemoveMeaning(s: SigSet, sig: nat, t: nat)
    requires IsSignal(sig) && IsSignal(t)
    ensures Contains(Remove(s, sig), t) <==> t != sig && Contains(s, t)
  {
    ContainsBit(s, t);
    ContainsBit(Remove(s, sig), t);
    SamePlace(sig, t);
  }

  lemma UnionMeaning(s: SigSet, u: SigSet, t: nat)
    requires IsSignal(t)
    ensures Contains(Union(s, u), t) <==> Contains(s, t) || Contains(u, t)
  {
    ContainsBit(s, t);
    ContainsBit(u, t);
    ContainsBit(Union(s, u), t);
  }

  lemma MinusMeaning(s: SigSet, u: SigSet, t: nat)
    requires IsSignal(t)
    ensures Contains(Minus(s, u), t) <==> Contains(s, t) && !Contains(u, t)
  {
    ContainsBit(s, t);
    ContainsBit(u, t);
    ContainsBit(Minus(s, u), t);
  }
}
