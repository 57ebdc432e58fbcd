/** The decimal printer of the kernel log; what is printed is the text emitted. */
module Klog {
  import opened Common
  import opened Bytes
  import opened Decimal

  /** What popping and printing a whole stack of digits emits. */
  function Popped(stack: seq<byte>): seq<byte>
    requires forall i :: 0 <= i < |stack| ==> stack[i] < 10
  {
    if stack == [] then [] else [0x30 + stack[|stack| - 1]] + Popped(stack[..|stack| - 1])
  }

  lemma {:induction false} StackDigit(stack: seq<byte>, d: byte)
    requires d < 10 && forall i :: 0 <= i < |stack| ==> stack[i] < 10
    ensures Popped(stack + [d]) == [0x30 + d] + Popped(stack)
  {
    assert (stack + [d])[..|stack|] == stack;
  }

  /** The lowest digit moves from the number to the stack. */
  lemma MoveDigit(n: nat, stack: seq<byte>)
    requires forall i :: 0 <= i < |stack| ==> stack[i] < 10
    ensures var d: byte := n % 10;
            Digits(n) + Popped(stack) == (if n < 10 then [] else Digits(n / 10)) + Popped(stack + [d])
  {
    var d: byte := n % 10;
    StackDigit(stack, d);
    var front := if n < 10 then [] else Digits(n / 10);
    assert front + [0x30 + d] + Popped(stack) == front + ([0x30 + d] + Popped(stack));
  }

  /** `_klog_print_unsigned`: remainders are pushed, then popped and printed. */
  method PrintUnsigned(number: Word) returns (out: seq<byte>)
    ensures out == Digits(number)
  {
    hide Digits, Popped;
    var stack := Push(number);
    out := [];
    var ecx := |stack|;
    while true
      invariant 0 < ecx == |stack| && forall i :: 0 <= i < |stack| ==> stack[i] < 10
      invariant out + Popped(stack) == Digits(number)
      decreases ecx
    {
      var rest, top := stack[..ecx - 1], stack[ecx - 1];
      StackDigit(rest, top);
      assert stack == rest + [top];
      assert out + ([0x30 + top] + Popped(rest)) == out + [0x30 + top] + Popped(rest);
      stack, out, ecx := rest, out + [0x30 + top], ecx - 1;
      if ecx == 0 { break; }
    }
    PoppedNothing();
  }

  lemma PoppedNothing()
    ensures Popped([]) == []
  {
  }

  /** The division loop. */
  method Push(number: nat) returns (stack: seq<byte>)
    ensures stack != [] && forall i :: 0 <= i < |stack| ==> stack[i] < 10
    ensures Popped(stack) == Digits(number)
  {
    hide Digits, Popped;
    var eax := number;
    stack := [];
    PoppedNothing();
    while true
      invariant forall i :: 0 <= i < |stack| ==> stack[i] < 10
      invariant Digits(eax) + Popped(stack) == Digits(number)
      decreases eax
    {
      MoveDigit(eax, stack);
      stack := stack + [eax % 10];
      eax := eax / 10;
      if eax == 0 { break; }
    }
  }
}
