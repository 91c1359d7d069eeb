/**
 * The `Bandwidth` value class: a byte count compared by value and shown in
 * the largest binary unit (B, KB, MB, GB, TB) that keeps the figure below 1024.
 */
module Bandwidths {
  import opened Wrappers

  datatype Bandwidth = Bandwidth(bytes: int)

  /** The unit prefixes of the display, each 1024 times the one before. */
  datatype Unit = NoPrefix | Kilo | Mega | Giga | Tera

  const KiB: int := 1024
  const MiB: int := 1024 * 1024
  const GiB: int := 1024 * 1024 * 1024
  const TiB: int := 1024 * 1024 * 1024 * 1024

  function Factor(u: Unit): (f: int)
    ensures f > 0
  {
    match u
    case NoPrefix => 1
    case Kilo => KiB
    case Mega => MiB
    case Giga => GiB
    case Tera => TiB
  }

  /** The text after the figure: "B", "KB", "MB", "GB" or "TB". */
  function Suffix(u: Unit): string {
    match u
    case NoPrefix => "B"
    case Kilo => "KB"
    case Mega => "MB"
    case Giga => "GB"
    case Tera => "TB"
  }

  /** `Bandwidth(numBytes)`: a missing count (None) is zero bytes. */
  function FromCount(numBytes: Option<int>): (b: Bandwidth)
    ensures numBytes.None? ==> b.bytes == 0
    ensures numBytes.Some? ==> b.bytes == numBytes.value
  {
    Bandwidth(if numBytes.None? then 0 else numBytes.value)
  }

  /** `a < other`: bytes against bytes; False when `other` is not a Bandwidth. */
  function Less(a: Bandwidth, other: Operand<Bandwidth>): bool {
    match other
    case Same(b) => a.bytes < b.bytes
    case Foreign => false
  }

  /** `a == other`: bytes against bytes; False when `other` is not a Bandwidth. */
  function Equal(a: Bandwidth, other: Operand<Bandwidth>): bool {
    match other
    case Same(b) => a.bytes == b.bytes
    case Foreign => false
  }

  /** Between two Bandwidths exactly one of less, equal and greater holds, and nothing else compares. */
  lemma Comparisons(a: Bandwidth, b: Bandwidth)
    ensures Less(a, Same(b)) || Equal(a, Same(b)) || Less(b, Same(a))
    ensures !(Less(a, Same(b)) && Equal(a, Same(b)))
    ensures !(Less(a, Same(b)) && Less(b, Same(a)))
    ensures Equal(a, Same(b)) <==> a == b
    ensures !Less(a, Foreign) && !Equal(a, Foreign)
  {
  }

  /** The figure and unit `toString` prints, before two-decimal formatting. */
  datatype Scaled = Scaled(value: real, unit: Unit)

  /** The unit choice and scaled figure of `toString`. */
  function Display(b: Bandwidth): (r: Scaled)
    ensures r.unit == NoPrefix <==> b.bytes < KiB
    ensures r.unit == Kilo <==> KiB <= b.bytes < MiB
    ensures r.unit == Mega <==> MiB <= b.bytes < GiB
    ensures r.unit == Giga <==> GiB <= b.bytes < TiB
    ensures r.unit == Tera <==> TiB <= b.bytes
    ensures r.unit == NoPrefix ==> r.value == b.bytes as real
    ensures r.value * Factor(r.unit) as real == b.bytes as real
    ensures r.unit != NoPrefix ==> 1.0 <= r.value
    ensures 0 <= b.bytes && r.unit != Tera ==> 0.0 <= r.value < 1024.0
  {
    if b.bytes < KiB then Scaled(b.bytes as real, NoPrefix)
    else if b.bytes < MiB then Scaled(b.bytes as real / KiB as real, Kilo)
    else if b.bytes < GiB then Scaled(b.bytes as real / MiB as real, Mega)
    else if b.bytes < TiB then Scaled(b.bytes as real / GiB as real, Giga)
    else Scaled(b.bytes as real / TiB as real, Tera)
  }

  /** Exactly 1024 bytes is shown as 1 KB, not as 1024 B. */
  lemma OneKibibyte()
    ensures Display(Bandwidth(1024)) == Scaled(1.0, Kilo)
  {
  }
}
