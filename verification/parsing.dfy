/**
  The vocabulary shared by every parser of the library: the template parameters, the
  outcome of feeding a buffer to a parser, and the results a receiver can report.
 */
module Parsing {
  /** The largest value of the 64-bit `long` that `strtol` returns. */
  const LONG_MAX: nat := 0x7FFF_FFFF_FFFF_FFFF

  /** The largest value of `size_t`, which is also what -1 becomes when stored in one. */
  const SIZE_MAX: nat := 0xFFFF_FFFF_FFFF_FFFF

  /** The template and constructor parameters of the receivers. */
  datatype Limits = Limits(
    maxUri: nat,
    maxMethod: nat,
    maxStatus: nat,
    maxReason: nat,
    maxHeaderNumber: nat,
    maxHeaderLength: nat,
    maxLine: nat,
    maxWs: nat,
    strictCrlf: bool,
    maxChunk: nat,
    maxContent: nat)

  /**
    What became of a buffer. The source only returns `Done?`; that the input ran out
    (More) or was refused (Error) is told apart here so that properties can be stated.
   */
  datatype Outcome = Done | More | Error

  /** A parser after a buffer: its new state, the bytes it did not read, and the outcome. */
  datatype Parsed<+S> = Parsed(s: S, rest: string, out: Outcome)

  /** A parser after one character. */
  datatype Stepped<+S> = Stepped(s: S, ok: bool)

  /** What a receiver reports after each call (headers.hpp, enum Rx). */
  datatype Rx = Invalid | ExpectContinue | Incomplete | Valid | ChunkReceived

  datatype Option<+T> = None | Some(value: T)
}
