/**
  `countReader`: it forwards every read of the
  wrapped reader unchanged and adds the bytes each read returned to a running
  64-bit count. The wrapped reader is the sequence of answers it gives; the
  count's atomicity is not modelled, the reads are taken one after another.
*/
module CountReader {
  import opened Base

  /** 2^64, the number of values of a 64-bit integer. */
  const Modulus: int := 0x1_0000_0000_0000_0000

  /** Go's `int64` (and `int`, which is 64 bits wide on the platforms the gateway targets). */
  type Int64 = x: int | -0x8000_0000_0000_0000 <= x < 0x8000_0000_0000_0000

  /** Two's complement wrap-around: the `int64` congruent to `x` modulo 2^64. */
  function Wrap64(x: int): (r: Int64)
    ensures (r - x) % Modulus == 0
    ensures -0x8000_0000_0000_0000 <= x < 0x8000_0000_0000_0000 ==> r == x
  {
    (x + 0x8000_0000_0000_0000) % Modulus - 0x8000_0000_0000_0000
  }

  /** `countReader`: the running count `n`, whose zero value is 0. */
  datatype Counter = Counter(n: Int64)

  /** The counter a fresh `countReader` starts with. */
  const Fresh := Counter(0)

  /** One answer of the wrapped reader: the byte count and the error of `r.Read(p)`. */
  datatype ReadResult<E> = ReadResult(nr: Int64, err: Option<E>)

  /** The counter after a read, and what the read returns to its caller. */
  datatype Step<E> = Step(counter: Counter, result: ReadResult<E>)

  /** `countReader.Read`: forward the wrapped reader's answer; count its bytes when there are any (`atomic.Int64.Add` wraps). */
  function Read<E>(c: Counter, answer: ReadResult<E>): (r: Step<E>)
    ensures r.result == answer
    ensures answer.nr > 0 ==> r.counter.n == Wrap64(c.n + answer.nr)
    ensures answer.nr <= 0 ==> r.counter == c
  {
    if answer.nr > 0 then Step(Counter(Wrap64(c.n + answer.nr)), answer)
    else Step(c, answer)
  }

  /** The bytes a sequence of answers delivers: the sum of the positive counts. */
  function Delivered<E>(answers: seq<ReadResult<E>>): (r: nat)
    decreases |answers|
  {
    if answers == [] then 0
    else Delivered(answers[..|answers| - 1]) + (var nr := answers[|answers| - 1].nr; if nr > 0 then nr else 0)
  }

  /** The counter after reading through `answers`, one `Read` per answer. */
  function ReadAll<E>(c: Counter, answers: seq<ReadResult<E>>): (r: Counter)
    decreases |answers|
  {
    if answers == [] then c
    else Read(ReadAll(c, answers[..|answers| - 1]), answers[|answers| - 1]).counter
  }

  // ---- properties ----

  /** Adding after wrapping is wrapping after adding. */
  lemma WrapAdd(x: int, y: int)
    ensures Wrap64(Wrap64(x) + y) == Wrap64(x + y)
  {
    var w := Wrap64(x);
    var k := (w - x) / Modulus;
    assert w == x + k * Modulus;
    ModShift(x + y + 0x8000_0000_0000_0000, k);
  }

  /** Shifting by a multiple of the modulus does not change the remainder. */
  lemma {:induction false} ModShift(a: int, k: int)
    ensures (a + k * Modulus) % Modulus == a % Modulus
    decreases if k < 0 then -k else k
  {
    if k > 0 {
      ModShift(a, k - 1);
      assert a + k * Modulus == (a + (k - 1) * Modulus) + Modulus;
    } else if k < 0 {
      ModShift(a, k + 1);
      assert a + k * Modulus == (a + (k + 1) * Modulus) - Modulus;
    }
  }

  /** After any sequence of reads the count is the starting count plus the bytes delivered, modulo 2^64. */
  lemma {:induction false} ReadAllCount<E>(c: Counter, answers: seq<ReadResult<E>>)
    ensures ReadAll(c, answers).n == Wrap64(c.n + Delivered(answers))
    decreases |answers|
  {
    if answers != [] {
      var init, last := answers[..|answers| - 1], answers[|answers| - 1];
      ReadAllCount(c, init);
      if last.nr > 0 {
        WrapAdd(c.n + Delivered(init), last.nr);
      }
    }
  }

  /** Delivered bytes only grow as more answers arrive. */
  lemma {:induction false} DeliveredPrefix<E>(answers: seq<ReadResult<E>>, k: nat)
    requires k <= |answers|
    ensures Delivered(answers[..k]) <= Delivered(answers)
    decreases |answers|
  {
    if k < |answers| {
      var init := answers[..|answers| - 1];
      assert answers[..k] == init[..k];
      DeliveredPrefix(init, k);
    } else {
      assert answers[..k] == answers;
    }
  }

  /**
    From a fresh counter, as long as fewer than 2^63 bytes have been read, the
    count is exactly the bytes delivered and never decreases from one read to
    the next.
  */
  lemma FreshCountExact<E>(answers: seq<ReadResult<E>>, k: nat)
    requires Delivered(answers) < 0x8000_0000_0000_0000
    requires k <= |answers|
    ensures ReadAll(Fresh, answers).n == Delivered(answers)
    ensures 0 <= ReadAll(Fresh, answers[..k]).n <= ReadAll(Fresh, answers).n
  {
    ReadAllCount(Fresh, answers);
    ReadAllCount(Fresh, answers[..k]);
    DeliveredPrefix(answers, k);
  }
}
