/** Model of the burst write of the BME280 driver (src/bme280.c, bme280_set_regs): register addresses
    are interleaved with the data, and the sensor takes the stream apart again. */
module Bme280Bus {
  import opened MachineInts

  const BURST_LIMIT := 10

  /** A write of one register. */
  datatype RegWrite = RegWrite(address: u8, data: u8)

  /** What the sensor makes of a burst: the first data byte belongs to the address that opened the
      transaction, and every following pair is an address and its data. */
  function Decoded(first: u8, stream: seq<u8>): seq<RegWrite>
  {
    if stream == [] then [] else [RegWrite(first, stream[0])] + Pairs(stream[1..])
  }

  function Pairs(stream: seq<u8>): seq<RegWrite>
  {
    if |stream| < 2 then [] else [RegWrite(stream[0], stream[1])] + Pairs(stream[2..])
  }

  lemma {:induction false} PairsConcat(s: seq<u8>, address: u8, data: u8)
    requires |s| % 2 == 0
    ensures Pairs(s + [address, data]) == Pairs(s) + [RegWrite(address, data)]
  {
    if s == [] {
      assert s + [address, data] == [address, data] && [address, data][2..] == [];
    } else {
      assert (s + [address, data])[2..] == s[2..] + [address, data];
      PairsConcat(s[2..], address, data);
    }
  }

  /** The register address as it is sent: on SPI bit 7 marks a read and is cleared for a write. */
  function Sent(address: u8, spi: bool): u8 { if spi then address % 0x80 else address }

  function Wanted(addresses: seq<u8>, data: seq<u8>, n: nat): seq<RegWrite>
    requires n <= |addresses| && n <= |data|
  {
    seq(n, k requires 0 <= k < n => RegWrite(addresses[k], data[k]))
  }

  datatype Status = Written(first: u8, stream: seq<u8>) | InvalidLen

  /** How many writes of a request are made. */
  function Burst(len: u8): nat { if len > BURST_LIMIT then BURST_LIMIT else len }

  /** A burst of up to ten writes reaches the sensor as those writes, in order; longer requests are
      cut to ten, and an empty one is refused. */
  method SetRegs(regAddr: array<u8>, regData: array<u8>, len: u8, spi: bool) returns (status: Status)
    requires regAddr != regData
    requires regAddr.Length >= Burst(len) && regData.Length >= Burst(len)
    modifies regAddr
    ensures var n := Burst(len);
            && (forall k :: 0 <= k < regAddr.Length ==>
                  regAddr[k] == if k < n then Sent(old(regAddr[k]), spi) else old(regAddr[k]))
            && if len == 0 then status == InvalidLen
               else status.Written? && |status.stream| == 2 * n - 1
                    && Decoded(status.first, status.stream) == Wanted(regAddr[..], regData[..], n)
  {
    var n := Burst(len);
    if n == 0 {
      return InvalidLen;
    }
    if spi {
      var k := 0;
      while k < n
        invariant 0 <= k <= n
        invariant forall j :: 0 <= j < regAddr.Length ==>
                    regAddr[j] == if j < k then Sent(old(regAddr[j]), true) else old(regAddr[j])
      {
        regAddr[k] := regAddr[k] % 0x80;
        k := k + 1;
      }
    }
    var stream := Interleaved(regAddr, regData, n);
    status := Written(regAddr[0], stream);
  }

  /** interleave_reg_addr, which fills the buffer behind the first data byte. */
  method Interleaved(regAddr: array<u8>, regData: array<u8>, n: nat) returns (stream: seq<u8>)
    requires 1 <= n <= regAddr.Length && n <= regData.Length && n <= BURST_LIMIT
    ensures |stream| == 2 * n - 1
    ensures Decoded(regAddr[0], stream) == Wanted(regAddr[..], regData[..], n)
  {
    var buffer := new u8[20];
    buffer[0] := regData[0];
    ghost var pairs: seq<u8> := [];
    var index := 1;
    while index < n
      invariant 1 <= index <= n
      invariant |pairs| == 2 * index - 2
      invariant buffer[..2 * index - 1] == [regData[0]] + pairs
      invariant [RegWrite(regAddr[0], regData[0])] + Pairs(pairs) == Wanted(regAddr[..], regData[..], index)
    {
      buffer[2 * index - 1] := regAddr[index];
      buffer[2 * index] := regData[index];
      PairsConcat(pairs, regAddr[index], regData[index]);
      assert Wanted(regAddr[..], regData[..], index + 1)
          == Wanted(regAddr[..], regData[..], index) + [RegWrite(regAddr[index], regData[index])];
      pairs := pairs + [regAddr[index], regData[index]];
      index := index + 1;
    }
    stream := buffer[..2 * n - 1];
    assert stream[1..] == pairs;
  }
}
