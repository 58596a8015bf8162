# A Dafny model of the pq-async core

pq-async is a C++ client library for PostgreSQL. This project models the parts of it that compute: the
base-10000 `numeric` arithmetic, the text and order of network addresses, the splitter of SQL scripts, the
binary wire formats of numerics, ranges and arrays, and the bookkeeping of the connection pool. Code that
works on buffers and fields is modelled by methods over arrays and classes, each tied by its postcondition to
a mathematical definition; lemmas prove what the definitions promise.

`dafny verify dfyconfig.toml` checks the project.

## Layout

| files | what they hold |
|---|---|
| `Basics` | what several parts share: options, bytes, C's division |
| `Radix`, `Decimal` | digit strings in base 10000 as integers; decimal shifts, rounding and truncation of reals |
| `Numeric` | the class `Numeric` (buffer, offset, count, weight, sign, scale), its value, its normal form, `strip_var` |
| `NumericRound`, `NumericAdd`, `NumericMul`, `LongDivision`, `NumericDiv`, `NumericMod` | the arithmetic |
| `NumericInt64`, `DecimalText`, `NumericText`, `NumericPrint` | conversions to and from 64-bit integers and text |
| `NumericGrammar` | the grammar of the texts that are read as numbers |
| `NetOrder`, `NetNumber` | comparison of addresses, and the check for host bits; both told in numbers |
| `NetParse`, `NetGrammar` | the reader of IPv6 addresses, and the grammar of the texts it accepts |
| `NetPrint`, `NetRoundTrip` | printing of IPv6 addresses, and reading what was printed |
| `NetIPv4`, `NetIPv4Grammar` | reader and printer of IPv4 addresses, the grammar of the texts accepted, and the round trip |
| `SplitQueries`, `SplitTheorem`, `SplitTokens`, `SplitEnd` | the script splitter, what it finds, which texts are statements, and how a script ends |
| `Wire`, `WireRange`, `WireArray` | the binary formats |
| `PoolModel`, `PoolLaws`, `Pool` | the pool as a state machine, what its clients get, and the class that takes its steps |

A `Numeric` denotes `sign * sum of digits[i] * 10000^(weight - i)`, a real number. `Finite` means that the
digits are digits and that the sign is plus or minus; `Stripped` that no zero digit stands at either end and
that zero has weight 0 and a plus sign; `Normal` adds that no decimals lie beyond the display scale. The
operations are specified on all finite operands, with leading and trailing zero digits, unless a row says
otherwise. Operands and result may be the same object.

## Where the code falls short of what one would expect

Each of these is stated in the model with the exact condition.

- `pg_sub_s64_overflow` does not report 0 - INT64_MIN (`SubOverflowsExact`, `SubOverflowMissed`). The caller
  never subtracts that number.
- `cmp_var` decides on the digit count and the sign before it looks at the digits, so a zero that kept a digit
  differs from a zero that has none (`CmpVar`, `CmpMisled`). `ceil_var` and `floor_var` inherit this: they are
  off by one on a zero written with digits after the point only (`CeilVar`, `FloorVar`, `HiddenZeroExample`).
- `ceil_var` and `floor_var` do not strip what is left before the point. Their results are stripped exactly if one
  was added or subtracted, or the digits before the point were stripped (`CeilVar`, `FloorVar`, `CutStripped`); the
  ceiling of -12340000.5 is not (`UnstrippedExample`). `int64_to_numericvar` leaves the trailing zero digits of
  multiples of 10000 (`Int64ToNumeric`).
- `mod_var` multiplies at the divisor's scale. The remainder is always right for a divisor in normal form, and for
  another one (of less than 5000 digits) exactly if the product shows no decimals beyond that scale (`ModVar`,
  `ModOnGrid`, `ModOffGrid`).
- `get_str_from_var` adds a negative display scale to the size of its buffer and prints as if the scale were 0, so
  that from a scale of -5 down the text may not fit (`GetStrFromVar`, `FitsBuffer`, `BufferTooSmall`).
- `inet_net_ntop_ipv6` accepts a destination of exactly the length of the text, and its terminator goes one past
  the end (`NtopIPv6`, `DestinationOverrun`).
- The reader of IPv6 addresses accepts more than sections 2.2 and 2.3 of RFC 4291: dotted quads with octets missing or
  empty, and a colon before the prefix length (`Strict`, `ShortQuad`, `ColonBeforeSlash`).
- The exponent of a number is read by strtol, so that blanks may stand after its letter (`NumericGrammar.Power`).
- A last statement without a semicolon is lost if it ends in a dollar quote, and only then (`LastFound`, `DollarLost`).
  If the script ends in a line comment without a line end, the last character of the comment becomes part of the
  query: "1--x" is read as "1x" (`OpenComment`, `CommentTaken`).
- The reader of IPv4 addresses ignores a dot after the last octet: "1.2.3.4." and "1.2.3./24" are accepted
  (`DotIgnored`). It gathers the prefix length in an int without a bound and compares it with 32 only afterwards:
  where the int wraps around, "10.0.0.0/4294967304" is accepted as 10.0.0.0/8 (`PrefixAsWritten`, `OverflowAccepted`).
- The comparison of addresses treats a value without a family as equal to every IPv6 value (`NetworkCmp`,
  `FamilyIgnored`).
- The condition for a dotted quad after seven zero words cannot hold where it is evaluated (`EncapsulatedTail`).
- A pooled connection counts as dead whenever it is neither locked nor in a transaction: the fifteen seconds
  are added to the present instead of being taken from it (`CleanedIsBusy`). The deadline for stealing lies in
  the past, so that there is one try whatever the timeout (`StealInTime`).

## Model

| member | source | states |
|---|---|---|
| `Numerics.Numeric.constructor` | src/pg_type_numeric_def.cpp:212-216 | a new variable is zero without digits |
| `Numerics.Numeric.Copy` | src/pg_type_numeric_def.cpp:218-239 | a copy has the same digits, weight, sign and scale in a new buffer with a spare place |
| `Numerics.Numeric.Assign` | src/pg_type_numeric_def.cpp:376-402 | assignment, also from itself, keeps every field and restores the spare place |
| `Numerics.AllocVar` | src/pg_type_numeric_def.cpp:646-653 | a new buffer with a zero spare place before the digits |
| `Numerics.ZeroVar` | src/pg_type_numeric_def.cpp:675-683 | the value becomes zero in normal form; the scale stays |
| `Numerics.StripVar` | src/pg_type_numeric_def.cpp:3744-3771 | removes zero digits at both ends; value and scale stay, and the result is stripped |
| `Numerics.StripKeepsValue` | src/pg_type_numeric_def.cpp:3744-3771 | a numeric and its stripped form have one value |
| `Numerics.NormalUnique` | src/pg_type_numeric_def.cpp:3738-3771 | value and scale determine every field of a stripped numeric |
| `NumericRound.PropagateCarry` | src/pg_type_numeric_def.cpp:3648-3668 | the carry ends at the latest in the spare place; the buffer grows by exactly the carry |
| `NumericRound.CutLastDigit` | src/pg_type_numeric_def.cpp:3607-3642 | the kept digits plus the carry are the digits rounded half up at the cut |
| `NumericRound.RoundVar` | src/pg_type_numeric_def.cpp:3576-3673 | for every rscale, also negative, the value is rounded half away from zero |
| `NumericRound.TruncVar` | src/pg_type_numeric_def.cpp:3682-3737 | for every rscale the value is cut off toward zero; when no digit is left |
| `NumericAdd.CmpAbs` | src/pg_type_numeric_def.cpp:3349-3400 | the sign of the difference of the magnitudes, with any zero padding |
| `NumericAdd.CmpVar` | src/pg_type_numeric_def.cpp:1356-1401 | the result is the sign of the difference of the values exactly if `CmpReliable` holds |
| `NumericAdd.CmpMisled` | src/pg_type_numeric_def.cpp:1371-1388 | two equal zeros that the comparison tells apart |
| `NumericAdd.AddDigits` | src/pg_type_numeric_def.cpp:3450-3471 | carry addition of aligned digits; the last carry is 0 |
| `NumericAdd.NoBorrow` | src/pg_type_numeric_def.cpp:3535-3556 | if the first magnitude is not the smaller, the last borrow is 0 |
| `NumericAdd.AddAbs` | src/pg_type_numeric_def.cpp:3409-3482 | the sum of the magnitudes, stripped, at the larger scale |
| `NumericAdd.SubAbs` | src/pg_type_numeric_def.cpp:3494-3567 | the difference of the magnitudes, stripped, if the first is not the smaller |
| `NumericAdd.AddVar` | src/pg_type_numeric_def.cpp:1416-1524 | the exact sum for all signs and weights; normal operands give a normal result |
| `NumericAdd.SubVar` | src/pg_type_numeric_def.cpp:1533-1645 | the exact difference for all signs and weights; normal operands give a normal result |
| `NumericAdd.SumIsNormal` | src/pg_type_numeric_def.cpp:1416-1645 | sums and differences of normal forms show no decimals beyond the larger scale |
| `NumericMul.AddRow` | src/pg_type_numeric_def.cpp:1795-1804 | adds one digit times the other operand; no entry exceeds the bound that maxdig tracks, so no 32-bit overflow |
| `NumericMul.NormalizeCarries` | src/pg_type_numeric_def.cpp:1776-1792 | carrying keeps the value, leaves digits, never overflows, and its last carry is 0 |
| `NumericMul.AddRows` | src/pg_type_numeric_def.cpp:1754-1804 | for operands of any length the accumulator holds the sum of the rows within its bound |
| `NumericMul.StoreDigits` | src/pg_type_numeric_def.cpp:1806-1826 | the final pass stores the accumulator as digits; the last carry is 0 |
| `NumericMul.SumError` | src/pg_type_numeric_def.cpp:1709-1804 | the partial products left out are at most one unit of the last place times NBASE per digit; nothing is lost if all places fit |
| `NumericMul.RowSumBound` | src/pg_type_numeric_def.cpp:1709-1726 | the sum of the rows fits the places computed |
| `NumericMul.MulVar` | src/pg_type_numeric_def.cpp:1654-1841 | the product rounded half away from zero at rscale if no input digit is cut off; in any case within (1/2 + min(n1, n2)/10000) * 10^-rscale, also on the early zero return |
| `LongDivision.ScaleFactor` | src/pg_type_numeric_def.cpp:1960-1971 | Knuth's factor brings the first divisor digit to NBASE/2 or more and keeps it a digit |
| `LongDivision.ScaleUp` | src/pg_type_numeric_def.cpp:1973-1989 | multiplication in place by the factor, within 32 bits |
| `LongDivision.Normalise` | src/pg_type_numeric_def.cpp:1969-1990 | divisor and dividend are multiplied by one factor and both carries are 0 |
| `LongDivision.Estimate` | src/pg_type_numeric_def.cpp:2020-2033 | the estimate is exact for the first digits, after at most two decrements, within 32 bits |
| `LongDivision.EstimateOneOff` | src/pg_type_numeric_def.cpp:2025-2033 | the estimate is the quotient digit or one too large |
| `LongDivision.MulSub` | src/pg_type_numeric_def.cpp:2043-2062 | subtracts qhat times the divisor from the window; the borrow says that it went below zero; the carry is 0 |
| `LongDivision.AddBack` | src/pg_type_numeric_def.cpp:2075-2091 | adds the divisor back to the window, with the carry out |
| `LongDivision.DivStep` | src/pg_type_numeric_def.cpp:2004-2096 | one quotient digit: the window becomes the remainder, below the divisor; add-back happens at most once and its carry cancels the borrow |
| `LongDivision.ShortDivide` | src/pg_type_numeric_def.cpp:1950-1956 | the quotient by one digit |
| `LongDivision.LongDivide` | src/pg_type_numeric_def.cpp:2002-2097 | the quotient by several digits; the remainder stays below the divisor in every iteration |
| `LongDivision.PrefixQuotient` | src/pg_type_numeric_def.cpp:1909-1933 | dividing a prefix of the padded dividend gives the quotient cut off at the last place |
| `LongDivision.DivDigits` | src/pg_type_numeric_def.cpp:1937-2097 | both paths give the cut-off quotient of the digit strings |
| `NumericDiv.TruncTrunc` | src/pg_type_numeric_def.cpp:2108-2112 | cutting off twice is cutting off once |
| `NumericDiv.RoundTrunc` | src/pg_type_numeric_def.cpp:1905-1907 | rounding what was cut off at a finer place rounds the number itself |
| `NumericDiv.DivVar` | src/pg_type_numeric_def.cpp:1852-2116 | for every rscale the exact quotient, cut off toward zero or rounded half away from zero, stripped; fails exactly for a divisor without digits or with a first digit 0 |
| `NumericMod.GridLength` | src/pg_type_numeric_def.cpp:1724-1726 | how many digits a stripped numeric with d decimals can have |
| `NumericMod.ModKeepsAll` | src/pg_type_numeric_def.cpp:2513-2516 | the multiplication inside mod_var cuts off no digit |
| `NumericMod.ProductOfInteger` | src/pg_type_numeric_def.cpp:2513-2516 | the product of the divisor and the integer quotient is exact only if it lies on the grid of the divisor's scale, and then it is for a divisor in normal form or of less than 5000 digits |
| `NumericMod.ModVar` | src/pg_type_numeric_def.cpp:2500-2520 | refused exactly for a divisor without digits or with a first digit 0; a - trunc(a/b)*b exactly, smaller than b, zero or with the sign of a, always for a divisor in normal form, and for another one of less than 5000 digits if and only if `ModOnGrid` holds; normal if both operands are |
| `NumericMod.ModOffGrid` | src/pg_type_numeric_def.cpp:2513-2516 | 1 and 0.7 written with scale 0, for which `ModOnGrid` does not hold |
| `NumericMod.CeilVar` | src/pg_type_numeric_def.cpp:2529-2546 | the ceiling, but one more for a hidden plus zero; stripped exactly if one was added or the digits before the point are stripped |
| `NumericMod.FloorVar` | src/pg_type_numeric_def.cpp:2555-2571 | the floor, but one less for a hidden minus zero; stripped exactly if one was subtracted or the digits before the point are stripped |
| `NumericMod.HiddenZeroExample` | src/pg_type_numeric_def.cpp:2529-2546 | a hidden plus zero: its ceiling is 0, and `CeilVar` gives 1 |
| `NumericMod.UnstrippedExample` | src/pg_type_numeric_def.cpp:2529-2571 | -12340000.5 for the ceiling and 12340000.5 for the floor: normal forms whose results are not stripped |
| `NumericInt64.MulOverflowsExact` | src/pg_type_numeric_def.cpp:1159-1200 | the test reports exactly the products outside 64 bits |
| `NumericInt64.SubOverflowsExact` | src/pg_type_numeric_def.cpp:1127-1152 | the test reports exactly the differences outside 64 bits, but for 0 - INT64_MIN |
| `NumericInt64.SubOverflowMissed` | src/pg_type_numeric_def.cpp:1127-1152 | the pair that it misses |
| `NumericInt64.Accumulate` | src/pg_type_numeric_def.cpp:1244-1266 | the integer is gathered as a negative number; gives up exactly if that leaves 64 bits; no step overflows |
| `NumericInt64.NumericToInt64` | src/pg_type_numeric_def.cpp:1207-1277 | true exactly if the value rounded half away from zero fits, and then that integer |
| `NumericInt64.Int64ToNumeric` | src/pg_type_numeric_def.cpp:1282-1322 | the exact value at scale 0, and when the result is stripped |
| `NumericInt64.ThroughNumeric` | src/pg_type_numeric_def.cpp:1207-1322 | every integer above INT64_MIN comes back unchanged |
| `NumericText.ScanMantissa` | src/pg_type_numeric_def.cpp:749-772 | collects digits around at most one point; a second point is an error |
| `NumericText.ReadLong` | src/pg_type_numeric_def.cpp:778-792 | the exponent as strtol reads it |
| `NumericText.PackDigits` | src/pg_type_numeric_def.cpp:827-843 | four decimal digits to a digit, with the same value |
| `NumericText.PackedMag` | src/pg_type_numeric_def.cpp:809-843 | the packed digits, aligned by the weight, are the decimal written |
| `NumericText.SetVarFromStr` | src/pg_type_numeric_def.cpp:700-852 | accepts exactly the literals of the grammar, returns their end, and stores the decimal written in normal form with its scale |
| `NumericText.FromText` | src/pg_type_numeric_def.cpp:244-322 | the number that a text denotes, blanks around it allowed, and NaN for exactly the other texts |
| `NumericGrammar.FormReads` | src/pg_type_numeric_def.cpp:700-852 | every text of the grammar is read: blanks, a sign, digits with at most one point, an exponent of either sign below 1073741823, and blanks; with the value and the scale that its digits and its exponent give |
| `NumericGrammar.AcceptedIsForm` | src/pg_type_numeric_def.cpp:700-852 | every text that is read is of the grammar, and denotes what is read |
| `NumericGrammar.AcceptedExactly` | src/pg_type_numeric_def.cpp:244-322 | a text is read exactly if it is of the grammar |
| `NumericGrammar.ExponentSigns` | src/pg_type_numeric_def.cpp:774-806 | "e" or "E" and digits, after a plus sign or none, multiply the number before them by that power of ten and take as many decimals from its scale; after a minus sign they divide it and add decimals |
| `NumericGrammar.BlankIsSpace` | src/pg_type_numeric_def.cpp:247-249 | the blanks are the six white space characters of the C locale |
| `NumericGrammar.ReadForm` | src/pg_type_numeric_def.cpp:244-322 | a variable from a text of the grammar has its value and scale, in normal form |
| `NumericPrint.WholePart` | src/pg_type_numeric_def.cpp:902-948 | the digits before the point, without leading zeros |
| `NumericPrint.FractionPart` | src/pg_type_numeric_def.cpp:955-985 | the digits after the point, zero-filled |
| `NumericPrint.GetStrFromVar` | src/pg_type_numeric_def.cpp:861-992 | for every finite value, the text is a minus sign exactly for a negative sign, digits, and a point with as many decimals as the scale, without leading zeros if the value is stripped; it denotes the value cut off at its scale, so that for a normal form it denotes the value; the characters written fit the buffer allocated exactly if `FitsBuffer` holds |
| `NumericPrint.BufferExact` | src/pg_type_numeric_def.cpp:885-890 | when the characters written fit the buffer: always for a positive scale, else by sign, digits before the point and scale |
| `NumericPrint.BufferEnough` | src/pg_type_numeric_def.cpp:885-890 | a scale of -4 or more is always served |
| `NumericPrint.BufferTooSmall` | src/pg_type_numeric_def.cpp:885-890 | a fraction rounded at -10 decimals, for which no character is allocated and two or more are written |
| `NumericPrint.TextReads` | src/pg_type_numeric_def.cpp:700-992 | which literal a printed text is |
| `NumericPrint.ThroughText` | src/pg_type_numeric_def.cpp:700-992 | printing and reading a normal form gives the same digits, weight, sign and scale |
| `NetOrder.BitNCmp` | src/pg_type_net_def.cpp:656-682 | the order of the first n bits as bit strings |
| `NetOrder.BitLoop` | src/pg_type_net_def.cpp:669-681 | the order of the top bits of two bytes |
| `NetOrder.NetworkCmp` | src/pg_type_net_def.cpp:685-712 | the order by family, network bits with a shorter prefix first, and address; which values are not told apart |
| `NetOrder.OrderZero` | src/pg_type_net_def.cpp:685-712 | equal exactly for the same family, mask and address bytes |
| `NetOrder.OrderAntisymmetric` | src/pg_type_net_def.cpp:685-712 | swapping the operands negates the order |
| `NetOrder.OrderTransitive` | src/pg_type_net_def.cpp:685-712 | the order is transitive, also strictly |
| `NetOrder.FamilyIgnored` | src/pg_type_net_def.cpp:706-711 | a value without family equals every IPv6 value |
| `NetNumber.FamilyOrder` | src/pg_type_net_def.cpp:706-711 | IPv4 comes before IPv6 |
| `NetNumber.OrderIs` | src/pg_type_net_def.cpp:685-704 | the order of two values of one family, in numbers: by the bits that both masks keep, then the shorter prefix first, then by address |
| `NetOrder.AddressOk` | src/pg_type_net_def.cpp:1518-1557 | true exactly if no bit after the mask is set |
| `NetNumber.HostNumber` | src/pg_type_net_def.cpp:1518-1557 | no bit after the mask is set exactly if the address, as a number, is a multiple of two to the power of the bits left |
| `NetParse.GetBits` | src/pg_type_net_def.cpp:1300-1331 | a prefix length up to 128 without leading zeros |
| `NetParse.GetV4` | src/pg_type_net_def.cpp:1333-1378 | the octets and the prefix length of a dotted quad, written from the cursor on |
| `NetParse.ShiftTail` | src/pg_type_net_def.cpp:1478-1495 | the bytes after the double colon move to the end, over themselves, and zeros fill the gap |
| `NetParse.PtonIPv6` | src/pg_type_net_def.cpp:1387-1513 | the address and prefix length that the reader of the text gives, none if it is refused; the rows of `NetGrammar` say which texts these are |
| `NetGrammar.FormReads` | src/pg_type_net_def.cpp:1387-1513 | every text of the grammar is accepted, with the address and prefix length it denotes |
| `NetGrammar.AcceptedIsForm` | src/pg_type_net_def.cpp:1387-1513 | every accepted text is one of the grammar and denotes what is read |
| `NetGrammar.AcceptedExactly` | src/pg_type_net_def.cpp:1387-1513 | a text is accepted exactly if it is one of the grammar |
| `NetGrammar.QuadRead` | src/pg_type_net_def.cpp:1333-1378 | the octets and prefix length of a dotted quad, of which octets may be empty or missing |
| `NetGrammar.ShortQuad` | src/pg_type_net_def.cpp:1455-1461 | "::1.2" is accepted as ::1.2.0.0 |
| `NetGrammar.ColonBeforeSlash` | src/pg_type_net_def.cpp:1462-1463 | "::1:/64" is accepted as ::1/64 |
| `NetPrint.FindRun` | src/pg_type_net_def.cpp:899-928 | the first of the longest runs of zero words if it has two or more, else none (sections 4.2.2 and 4.2.3 of RFC 5952) |
| `NetPrint.MakeWords` | src/pg_type_net_def.cpp:896-898 | the bytes joined in pairs |
| `NetPrint.DecOct` | src/pg_type_net_def.cpp:843-864 | a dotted quad, exactly if more than five characters are left before its last octet |
| `NetPrint.PrintWords` | src/pg_type_net_def.cpp:933-970 | words in hexadecimal with one double colon for the run, and a dotted quad where one is embedded |
| `NetPrint.EncapsulatedTail` | src/pg_type_net_def.cpp:948-950 | when a dotted quad is printed |
| `NetPrint.TextLength` | src/pg_type_net_def.cpp:876 | bounds on the text that the buffers rely on |
| `NetPrint.QuadAddresses` | src/pg_type_net_def.cpp:948-950 | a dotted quad is printed exactly after ten zero bytes and two that are 255, or after twelve zero bytes before a word that is not zero |
| `NetPrint.NtopIPv6` | src/pg_type_net_def.cpp:866-985 | the compressed text with its prefix length; "::ffff:" or "::" and a dotted quad for exactly the addresses of `QuadAddresses`, and no dot in any other text; it fits the internal buffer; refused exactly for a bad prefix length or a text longer than the destination; a destination of 50 characters or more is never refused or overrun, a smaller one is overrun exactly if it has the length of the text |
| `NetPrint.DigitsAre` | src/pg_type_net_def.cpp:963 | hexadecimal digits are printed in lower case, and read in either case |
| `NetPrint.FirstBytesShown` | src/pg_type_net_def.cpp:896-898 | a word is printed with the digits of its first byte before those of its second |
| `NetPrint.OctetDigits` | src/pg_type_net_def.cpp:853 | the digits of an octet, the highest first |
| `NetPrint.DestinationOverrun` | src/pg_type_net_def.cpp:976-983 | "::" is printed into two characters, and the terminator past them |
| `NetRoundTrip.TextIsForm` | src/pg_type_net_def.cpp:931-974 | the printed text is one of the grammar that the reader accepts |
| `NetRoundTrip.FormDenotes` | src/pg_type_net_def.cpp:931-974 | it denotes the address printed |
| `NetRoundTrip.PrintedIsStrict` | src/pg_type_net_def.cpp:931-974 | what is printed is a text of sections 2.2 and 2.3 of RFC 4291 |
| `NetRoundTrip.TextReads` | src/pg_type_net_def.cpp:866-985 | for every address, every run of zero words and every prefix length the text reads back |
| `NetRoundTrip.ThroughText` | src/pg_type_net_def.cpp:866-1513 | printing and reading gives the same sixteen bytes and prefix length |
| `NetIPv4.GatherBits` | src/pg_type_net_def.cpp:1250-1257 | the int left of the number written, if int arithmetic wraps around |
| `NetIPv4.PtonIPv4` | src/pg_type_net_def.cpp:1211-1298 | the address and prefix length that the reader of the text gives, none if it is refused; the rows of `NetIPv4Grammar` say which texts these are |
| `NetIPv4.NtopIPv4` | src/pg_type_net_def.cpp:802-841 | four octets and a prefix length other than 32, exactly if the prefix length is good and `HasRoom` holds; text and terminator fit |
| `NetIPv4.TwentyEnough` | src/pg_type_net_def.cpp:802-841 | twenty characters are room enough for every address |
| `NetIPv4Grammar.OctetsRead` | src/pg_type_net_def.cpp:1222-1242 | octets with dots between them, and perhaps after them, are read up to the prefix length |
| `NetIPv4Grammar.FormReads4` | src/pg_type_net_def.cpp:1211-1298 | every text of the grammar is accepted, with the address and prefix length it denotes |
| `NetIPv4Grammar.AcceptedIsForm4` | src/pg_type_net_def.cpp:1211-1298 | every accepted text is one of the grammar and denotes what is read |
| `NetIPv4Grammar.AcceptedExactly4` | src/pg_type_net_def.cpp:1211-1298 | a text is accepted exactly if it is one of the grammar |
| `NetIPv4Grammar.PrefixAsWritten` | src/pg_type_net_def.cpp:1244-1275 | a prefix length is taken as it is written, and refused above 32, exactly if it fits an int or what wrapping around leaves of it is refused too |
| `NetIPv4Grammar.WrittenReads` | src/pg_type_net_def.cpp:1211-1298 | what one to four octets, a dot after them or none, and any prefix length or none are read as |
| `NetIPv4Grammar.OverflowAccepted` | src/pg_type_net_def.cpp:1250-1261 | every address with /4294967304 after it is accepted as one with /8 |
| `NetIPv4Grammar.DotIgnored` | src/pg_type_net_def.cpp:1222-1242 | a dot after the last octet makes no difference |
| `NetIPv4Grammar.ThroughText` | src/pg_type_net_def.cpp:798-1298 | printing and reading gives the same four bytes and prefix length |
| `SplitQueries.ReadTag` | src/database.cpp:337-349 | the tag up to the next dollar sign or the end |
| `SplitQueries.SplitScript` | src/database.cpp:226-387 | the queries that the turns of the mode machine find, at most one flag being set at a time |
| `SplitTheorem.NextLocal` | src/database.cpp:238-385 | a turn inside a statement does not depend on the text after its semicolon |
| `SplitTheorem.ScanSplits` | src/database.cpp:238-385 | from inside a statement the splitter reaches its semicolon with the statement scanned |
| `SplitTheorem.CopySplits` | src/database.cpp:313-329 | the data of a COPY is one query, up to the line that ends it |
| `SplitTheorem.ScriptSplits` | src/database.cpp:226-387 | a script of statements splits into exactly these, in order, without line comments, trimmed, the blank ones dropped; COPY data included |
| `SplitTheorem.ItemsSplit` | src/database.cpp:226-387 | statements with their semicolons yield their queries, whatever follows them |
| `SplitTheorem.EndLine` | src/database.cpp:313-329 | COPY data ends at the first line end that a backslash and a dot follow |
| `SplitTokens.TokensScan` | src/database.cpp:254-360 | a text of plain characters, comments, quoted texts and dollar quotes is one statement, whatever semicolons lie inside them |
| `SplitTokens.ScanTokens` | src/database.cpp:254-360 | every text that is one statement is made of such parts, and only the comments are left out |
| `SplitEnd.LastSplits` | src/database.cpp:243-252 | after them, a last statement without a semicolon is a further query, without line comments and trimmed; none if it ends in a dollar quote |
| `SplitEnd.LastFound` | src/database.cpp:243-252 | the last statement is among the queries exactly if it does not end in a dollar quote |
| `SplitEnd.DollarLost` | src/database.cpp:298-311 | "$$a$$" without a semicolon gives no query |
| `SplitEnd.OpenComment` | src/database.cpp:243-258 | what becomes of a script that ends within a line comment |
| `SplitEnd.CommentTaken` | src/database.cpp:243-258 | "1--x" gives the query "1x" |
| `SplitEnd.TrimOnly` | src/database.cpp:248 | trimming takes the blanks at both ends and nothing else |
| `SplitEnd.TrimSplits` | src/database.cpp:248 | every text is blanks, the trimmed text, and blanks |
| `SplitEnd.CopyTexts` | src/database.cpp:368-377 | which queries start COPY data |
| `Wire.IntRoundTrip` | src/utils.cpp:32-68 | an integer that fits its bytes is read back, for every width |
| `Wire.EncodeNumeric` | src/data_parameters.cpp:1103-1119 | the bytes of a numeric, exactly as many as are allocated |
| `Wire.DecodeNumeric` | src/data_parameters.cpp:133-172 | zero for NULL, the number or NaN of a text, or the numeric that well-formed bytes hold |
| `Wire.NumericCodec` | src/data_parameters.cpp:133-172 | the bytes of a numeric are well-formed and hold it: same digits, weight, sign and scale |
| `Wire.NumericLayout` | src/data_parameters.cpp:1103-1119 | which bytes hold the count, the weight, the sign and the scale, the high byte first |
| `Wire.DigitLayout` | src/data_parameters.cpp:1103-1119 | which bytes hold each digit |
| `Wire.FourBytes` | src/utils.cpp:32-68 | the four bytes of an integer, the highest first |
| `Wire.NegativeBytes` | src/utils.cpp:32-68 | negative integers are in two's complement, the top bit of the first byte set |
| `Wire.FiniteFits` | src/data_parameters.cpp:1103-1119 | which numerics can be sent |
| `WireRange.LowBitsDecide` | include/pq-async/pg_type_range_def.h:129-140 | the bounds that are there depend on the low eight flag bits alone |
| `WireRange.FlagsDecide` | include/pq-async/pg_type_range_def.h:36-50 | for flags given by name: the lower bound is there exactly if empty, lb_inf and lb_null are not set, the upper bound exactly if empty, ub_inf and ub_null are not |
| `WireRange.EncodeNumRange` | src/data_parameters.cpp:1411-1464 | the bytes of a range, exactly as many as are allocated; in terms of the named flags: the flag byte and each bound that they leave, behind its length |
| `WireRange.DecodeNumRange` | src/data_parameters.cpp:682-705 | the same low flag bits and the bounds that are there; the cursor ends at the end |
| `WireRange.ThroughWire` | src/data_parameters.cpp:682-1464 | a numrange sent and received keeps its flags and its bounds |
| `WireRange.EncodeIntRange` | src/data_parameters.cpp:1353-1409 | the bytes of an int4range or int8range, exactly as many as are allocated; in terms of the named flags as well |
| `WireRange.DecodeIntRange` | src/data_parameters.cpp:632-680 | the same low flag bits and bounds; the cursor ends at the end |
| `WireArray.EncodeArray` | include/pq-async/data_parameters.h:540-605 | the bytes of an array |
| `WireArray.HeaderSent` | include/pq-async/data_parameters.h:540-605 | which bytes hold the number of dimensions, the null flag and the element type |
| `WireArray.DimSent` | include/pq-async/data_parameters.h:540-605 | which bytes hold the size of each dimension, and its lower bound, which is one |
| `WireArray.ElementSent` | include/pq-async/data_parameters.h:540-605 | which bytes hold the length of each element and the element |
| `WireArray.CountIs` | include/pq-async/data_parameters.h:369-423 | the number of elements of an array of no, one or two dimensions |
| `WireArray.DecodeArray` | include/pq-async/data_parameters.h:369-423 | sizes and elements in order, for every legal array without nulls; the cursor ends at the end |
| `WireArray.ThroughWire` | include/pq-async/data_parameters.h:369-605 | with an element codec that round-trips, so does the array |
| `WireArray.IntsThroughWire` | include/pq-async/data_parameters.h:369-605 | arrays of int4 and int8 keep their sizes and elements |
| `WireArray.NumericsThroughWire` | include/pq-async/data_parameters.h:369-605 | so do arrays of numerics, read as the decoder reads them |
| `PoolModel.RunKeeps` | src/data_connection_pool.cpp:357-502 | in every run with a clock that never goes back, every pool has at most max(1, max) members, all distinct and of its target |
| `PoolModel.StepKeeps` | src/data_connection_pool.cpp:67-127 | every step of a client keeps that invariant |
| `PoolModel.CleanedIsBusy` | src/data_connection_pool.cpp:377-399 | the clean-up leaves the first five and, in order, those others that are locked or in a transaction |
| `PoolModel.CleanedTwice` | src/data_connection_pool.cpp:377-399 | a second clean-up changes nothing |
| `PoolModel.InUseStays` | src/data_connection_pool.cpp:357-502 | no step takes a connection in use out of its pool |
| `PoolModel.StealPermutes` | src/data_connection_pool.cpp:453-464 | the candidates for stealing are a permutation of the pool |
| `PoolModel.LaterFirst` | src/data_connection_pool.cpp:453-464 | those with names after the last one stolen come first |
| `PoolModel.AcquireOutcome` | src/data_connection_pool.cpp:401-498 | no connection is returned exactly if the pool is full and all its members work or are in a transaction; one that is returned is in the pool |
| `PoolLaws.Opened` | src/data_connection_pool.cpp:401-437 | with room in the pool and every member locked, a new connection is opened, locked, and put at the end |
| `PoolLaws.Reused` | src/data_connection_pool.cpp:416-425 | with room, the first member that is not locked is handed out: locked, idle, and owned; no other record or pool changes |
| `PoolLaws.HandedOut` | src/data_connection_pool.cpp:67-78 | what is handed out while there is room was not locked before, and is locked after |
| `PoolLaws.HandedOutOnce` | src/data_connection_pool.cpp:357-502 | in every run: a connection handed out while there was room is not handed out again, while there is room, before it is released |
| `PoolLaws.NoneTaken` | src/data_connection_pool.cpp:439-498 | in a full pool nothing is handed out exactly if every member works, is reserved or is in a transaction, and then nothing changes |
| `PoolLaws.TakenOver` | src/data_connection_pool.cpp:439-498 | what is handed out then neither worked nor was in a transaction; it is reserved for its new owner, and no other record changes |
| `PoolLaws.TakenInTurn` | src/data_connection_pool.cpp:453-491 | it has a later name than the last one stolen, if any candidate has |
| `PoolLaws.StepEffect` | src/data_connection_pool.cpp:80-105 | what release, begin, end, work and rest do to the fields of a connection, and that they change no other |
| `PoolLaws.Stealable` | src/data_connection_pool.cpp:67-127 | a connection can be stolen exactly if it does not work, is not reserved, and is in no transaction |
| `PoolLaws.NameOrder` | src/data_connection_pool.cpp:453-464 | names are compared as a dictionary orders them |
| `PoolLaws.LockedCount` | src/data_connection_pool.cpp:306-354 | the count of locked members is the number of members that are locked |
| `Pool.EraseDead` | src/data_connection_pool.cpp:377-399 | erasing from the back leaves the first five and the others that are not dead |
| `Pool.ListForStealing` | src/data_connection_pool.cpp:453-464 | the two passes give the order of stealing |
| `Pool.ConnectionPool.OpenedCount` | src/data_connection_pool.cpp:306-354 | the number of locked members after a clean-up |
| `Pool.ConnectionPool.StealInTime` | src/data_connection_pool.cpp:439-491 | the loop makes exactly one try; the first candidate that can be stolen is taken over, and without one nothing changes |
| `Pool.ConnectionPool.GetConnection` | src/data_connection_pool.cpp:357-502 | takes the step that the model's `Acquire` describes and keeps the invariant |
| `Pool.ConnectionPool.Change` | src/data_connection_pool.cpp:80-105 | release, transaction and work steps as the model describes them |

## Left out

- `div_var_fast`, `sqrt_var`, `exp_var`, `ln_var`, `log_var`, `power_var`, `power_var_int`, `select_div_scale`
  and the conversions to and from double: approximate by design, and driven by doubles.
- Scientific notation (`get_str_from_var_sci`) and `numericvar_to_int32`: easy members beside those modelled.
- NaN: the routines modelled do not treat it apart. They are stated on finite values.
- Overflow of the C `int` fields weight, scale and digit count: these are unbounded here. Digits, carries,
  borrows, quotient digits and the accumulators of multiplication and division are bounded to 32 bits.
- A null digit pointer is an empty buffer here, and `digitbuf_free` is not modelled.
- `strtol` reads an exponent without a limit here, where C saturates; either way it is refused.
- Signed overflow is undefined in C. The int that gathers the prefix length of an IPv4 text wraps around here.
- `inet_cidr_pton_ipv4` with its hexadecimal and classful forms, and the `cidr` and `inet` constructors, whose
  mask check uses 32 for both families.
- `macaddr` and `macaddr8`: bytewise and easy.
- C strings end at a NUL; texts here have none inside.
- `md::trim` and the case folding of Boost are not part of the repository: white space is that of the C locale,
  and letters are ASCII.
- Scripts that end within a quote, a dollar quote or COPY data: they are not complete.
- Text format of integers, ranges and arrays on the wire, and NULL elements of arrays, after which the decoder's
  cursor moves back by one.
- Byte order is modelled as what reaches the wire (highest byte first), not as the swaps that a little-endian
  machine needs.
- The product of array dimensions is unbounded; in C it overflows only if the count itself does, or if a zero
  dimension follows a large product.
- Reads outside a buffer: the decoders are stated on values that are well-formed.
- tsrange, daterange and the geometric types on the wire: they depend on the date library or on doubles.
- Who owns a pooled connection, the links from databases back to connections, errors that the server returns
  to BEGIN, COMMIT and ROLLBACK, and the mutex: each pool call is one step.
- Deleted connections keep their record in the model's map, in no pool.
- `connection_task_t`, readers, prepared statements, large objects, JSON, logging: calls into libpq, libevent
  and the event queue.
- Wire.DecodeNumeric: requires binary values to be well-formed, that is, to hold the digits they announce.
- NumericMod.ModVar: for a divisor of 5000 or more digits that is not in normal form, it does not say that the
  remainder is right if `ModOnGrid` holds: what the multiplication leaves out may reach half a unit there.
- NumericRound.RoundVar: requires the spare place before the digits to be zero, as the code does.
- NumericInt64.Int64ToNumeric: requires a value above INT64_MIN, whose negation C does not define.
