/** The display rule for `create_time` values (CommentApp.convert_timestamp). */
module Timestamp {

  /** What the platform's date library makes of an epoch second in the
      Asia/Shanghai zone: the `%Y-%m-%d %H:%M:%S` text, or the message of the
      exception it raised (for instance a year beyond 9999). */
  datatype DateText = Rendered(text: string) | Fault(detail: string)

  /** "invalid time", returned for values outside the accepted range. */
  const InvalidTime: string := "无效时间"

  /** "unknown time (", the start of the text returned when the library faults. */
  const UnknownTimePrefix: string := "未知时间 ("

  /** The largest accepted timestamp, 1e12. */
  const ValidityBound: int := 1_000_000_000_000

  /** The rescaling the code applies to millisecond timestamps (Python's true
      division, here on integers; it is never reached, see below). */
  function MillisToSeconds(ms: int): int
  {
    ms / 1000
  }

  function Display(d: DateText): string
  {
    match d
    case Rendered(text) => text
    case Fault(detail) => UnknownTimePrefix + detail + ")"
  }

  /** convert_timestamp(ts) with the date library passed in as `render`. The
      millisecond rescaling is kept where the code has it, after the range check. */
  function ConvertTimestamp(render: int -> DateText, ts: int): (text: string)
    ensures ts < 0 || ts > ValidityBound ==> text == InvalidTime
    ensures 0 <= ts <= ValidityBound ==> text == Display(render(ts))
  {
    if ts < 0 || ts > ValidityBound then InvalidTime
    else
      var seconds := if ts > ValidityBound then MillisToSeconds(ts) else ts;
      Display(render(seconds))
  }

  /** The invalid-time text comes back exactly for negative values and values
      above 1e12, provided the date library never itself renders that text. */
  lemma InvalidExactlyOutOfRange(render: int -> DateText, ts: int)
    requires forall t :: render(t) != Rendered(InvalidTime)
    ensures ConvertTimestamp(render, ts) == InvalidTime <==> ts < 0 || ts > ValidityBound
  {
    if 0 <= ts <= ValidityBound {
      match render(ts)
      case Rendered(text) =>
      case Fault(detail) =>
        assert Display(render(ts))[0] == '未' && InvalidTime[0] == '无';
    }
  }

  /** The millisecond branch is dead: every accepted value reaches the date
      library unchanged, and a millisecond timestamp (such as
      1 700 000 000 000), which the rescaling would bring into the accepted
      range, is rejected as invalid instead. */
  lemma MillisecondBranchUnreachable(render: int -> DateText, ts: int)
    ensures 0 <= ts <= ValidityBound ==> ConvertTimestamp(render, ts) == Display(render(ts))
    ensures ValidityBound < ts <= 1000 * ValidityBound ==>
      && 0 <= MillisToSeconds(ts) <= ValidityBound
      && ConvertTimestamp(render, ts) == InvalidTime
      && ConvertTimestamp(render, MillisToSeconds(ts)) == Display(render(MillisToSeconds(ts)))
  {
  }
}
