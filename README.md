# functions-js: the deterministic core, modelled in Dafny

This project models the deterministic, integer part of the `Functions` utility
object of functions-js (`index.ts`) and proves what those helpers promise:

- **`Array` helpers** (`arrays.dfy`, module `Arrays`). `remove`, `removeByValue`
  and `reverse` edit a JavaScript array in place. They are methods of the class
  `JsArray`, whose field `elems` holds the array's contents.
  `removeDuplicates` returns a new array. It is the function `RemoveDuplicates`,
  defined, like the source's `filter` callback, by comparing each index with
  `indexOf`.
- **`Number` predicates** (`numbers.dfy`, module `Numbers`). `isEven`, `isOdd`
  and `isDivisibleBy` use JavaScript's `%`, which truncates toward zero. The
  function `TruncRem` models that operator. So `isOdd(-3)` is false, as it is
  in JavaScript.
  `isPrime` is a trial-division loop, proved against the mathematical
  definition of a prime. `fibbonacci` is the doubly recursive definition,
  related to a linear one.
- **Roman numerals** (`roman.dfy`, module `RomanNumerals`). The table
  `Number.romanNumerals` is kept in the order `for…in` visits its keys, which is
  insertion order because they are not array indices (section 10.1.11.1 of
  ECMA-262).
  `romanNumeral` is the nested greedy loop, proved equal to the recursive
  definition `Greedy`. A decoder that reads a numeral back, taking the
  first table key that begins the rest of the text, closes the round trip.
- **`Math.factorial`** (`maths.dfy`, module `Maths`). This is the loop with its
  optional `times` argument, a falling product `number * (number-1) * …`.
  Its result is related to the ordinary factorial.
- **Colour conversions** (`generators.dfy`, module `Generators`).
  `hexToRGB` and `RGBToHex` are modelled together with the integer part of
  `hexToRGBA` and `RGBAToHex`, which is the alpha byte. The model spells out
  the JavaScript built-ins they rest on:
  - `parseInt(s, 16)` per section 19.2.5 of ECMA-262: leading white space, an
    optional sign, an optional `0x` prefix, the longest run of hex digits, and
    NaN when that run is empty;
  - `<<` with ToInt32 wrap-around;
  - `Number.prototype.toString(16)`: lower-case digits and a `-` sign.

  The `(1 << 24)` padding trick is proved to give six zero-padded digits.

`errors.dfy` (module `Errors`) holds the `Result` and `Option` datatypes.
A thrown `Error` is `Err(message)`, carrying the source's exact message text.

Two details of the code that the model keeps as written:

- `RGBToHex` combines the shifted channels with `+`, not `|`; the two agree
  for channels in [0, 255].
- `isDivisibleBy(n, 0)` returns false, because `n % 0` is NaN and NaN is not
  equal to 0.

## Model

| member | source | states |
|---|---|---|
| Arrays.IndexOf | index.ts:9 | the result is -1 exactly when the value is absent; otherwise that index holds the value and no earlier index does |
| Arrays.KeepFirsts | index.ts:14 | the filter over the first n elements keeps each value that occurs there, keeps only those values, and keeps them in order of first occurrence |
| Arrays.RemoveDuplicates | index.ts:13-15 | every element of the result is in the array, every element of the array is in the result, the result has no two equal elements, and they come in order of first occurrence |
| Arrays.KeepFirstsOfDistinct | index.ts:13-15 | an array without duplicates is returned unchanged |
| Arrays.RemoveDuplicatesIdempotent | index.ts:13-15 | removing duplicates twice gives the same as once |
| Arrays.JsArray.Remove | index.ts:3-7 | a negative index and an index above the length throw their messages and leave the array alone; an index in range removes that one element and returns it; an index equal to the length removes nothing and returns an empty array; putting the returned part back at the index restores the old array |
| Arrays.JsArray.RemoveByValue | index.ts:8-12 | an absent value throws and leaves the array alone; otherwise the first occurrence is removed and returned; in both cases the old contents equal the new contents plus what was removed, as multisets |
| Arrays.Reversed | index.ts:17 | element i of the reversal is element n-1-i of the input |
| Arrays.JsArray.Reverse | index.ts:16-18 | the swap loop leaves the array reversed in place and returns the same object |
| Arrays.ReversedTwice | index.ts:16-18 | reversing twice gives the array back |
| Arrays.ReversedSameElements | index.ts:16-18 | reversal keeps every element, as often as it occurs |
| Numbers.TruncRem | index.ts:103 | JavaScript's `%` on integers: the remainder differs from the dividend by a multiple of the divisor, is smaller than the divisor in magnitude, and takes the dividend's sign |
| Numbers.IsEven | index.ts:102-104 | `number % 2 == 0` with JavaScript's `%`; what it decides is stated in `Numbers.ParityTruncated` |
| Numbers.IsOdd | index.ts:105-107 | `number % 2 == 1` with JavaScript's `%`; what it decides is stated in `Numbers.ParityTruncated` |
| Numbers.IsDivisibleBy | index.ts:115-117 | `number % divisor == 0` with JavaScript's `%`, false for divisor 0; what it decides is stated in `Numbers.DivisibleByIff` |
| Numbers.ParityTruncated | index.ts:102-107 | `isEven` holds exactly for even numbers; `isOdd` holds exactly for positive odd numbers; negative odd numbers are neither even nor odd |
| Numbers.DivisibleByIff | index.ts:115-117 | `isDivisibleBy` holds exactly when the divisor is non-zero and divides the number; it is false for divisor 0 |
| Numbers.IsPrime | index.ts:108-114 | the trial-division loop answers true exactly for primes: numbers of at least 2 with no divisor between 2 and themselves |
| Numbers.PrimeExamples | index.ts:108-114 | 1 and 18 are not prime; 2, 3 and 17 are |
| Numbers.Fibonacci | index.ts:153-158 | arguments below 1 throw the source's message, and every other argument gives a value of at least 1 |
| Numbers.FibonacciByPairs | index.ts:153-158 | the doubly recursive definition agrees with the linear pair iteration from (1, 1) |
| Numbers.FibonacciMonotone | index.ts:153-158 | the sequence never decreases |
| RomanNumerals.Value | index.ts:127-141 | every table value is positive |
| RomanNumerals.ValuesDecrease | index.ts:127-141 | the table, in visiting order, has strictly decreasing values |
| RomanNumerals.Greedy | index.ts:145-150 | the greedy tokens are table entries |
| RomanNumerals.GreedyOrdered | index.ts:145-150 | the greedy tokens never go back up the table, start at the current entry, and add up to the number |
| RomanNumerals.Roman | index.ts:142-152 | the numeral of the greedy tokens uses only the letters M, D, C, L, X, V and I; `RomanNumerals.RomanTokens` and `RomanNumerals.RomanRoundTrip` state what it encodes |
| RomanNumerals.RomanNumeral | index.ts:142-152 | numbers outside [1, 3999] throw the source's message; every other number gives the greedy numeral |
| RomanNumerals.RomanTokens | index.ts:127-151 | the tokens of a numeral are table keys, add up to the number, and come in non-increasing order of value |
| RomanNumerals.RomanRoundTrip | index.ts:142-152 | reading back a numeral, by taking the first table key that begins the rest of the text each time, gives the number |
| RomanNumerals.RenderAlphabet | index.ts:127-141 | numerals use only the letters M, D, C, L, X, V and I |
| RomanNumerals.RomanExamples | index.ts:142-152 | 1 gives "I", 4 gives "IV" and 3999 gives "MMMCMXCIX" |
| Maths.Factorial | index.ts:190-199 | negative numbers throw the source's message, 0 gives 1, and a positive number gives the product of `times` factors counting down from it |
| Maths.FallingProduct | index.ts:194-197 | the product the loop builds, `times` factors counting down from the number; its relation to the factorial is stated in `Maths.FallingProductIsFactorial`, `Maths.FallingProductQuotient` and `Maths.FallingProductPastZero` |
| Maths.FallingProductIsFactorial | index.ts:190-199 | with `times` equal to the number, the result is the factorial |
| Maths.FallingProductQuotient | index.ts:194-197 | the product of t factors counting down from n is n! / (n - t)! |
| Maths.FallingProductPastZero | index.ts:194-197 | more factors than the number reach the factor 0, so the product is 0 |
| Maths.FallingProductOneFactor | index.ts:190 | with the default `times` of 1, the result is the number itself |
| Generators.DigitChar | index.ts:250 | `toString(16)` writes a lower-case digit whose value is the given one |
| Generators.HexDigits | index.ts:250 | `toString(16)` of a non-negative integer is a non-empty string of lower-case hex digits |
| Generators.ParseHex | index.ts:222-227 | `parseInt(s, 16)`; it reads hex digits as their value (`Generators.ParseHexOfDigits`) and undoes `toString(16)` (`Generators.ParseHexOfToHexString`) |
| Generators.ToHexString | index.ts:250 | `toString(16)` gives a non-empty string that starts with "-" exactly for negative numbers, and is otherwise made of lower-case hex digits |
| Generators.ShiftLeft | index.ts:250 | `x << k` is a 32-bit signed integer |
| Generators.ShiftLeftInRange | index.ts:250 | a shift of a non-negative operand whose product stays below 2^31 is the product by 2^k |
| Generators.ParseHexOfDigits | index.ts:227 | `parseInt(s, 16)` on a non-empty string of hex digits is the value of those digits |
| Generators.ParseHexOfToHexString | index.ts:250 | `parseInt(n.toString(16), 16)` gives back n for every integer n, negative ones included |
| Generators.ToInt32 | index.ts:250 | the operand of `<<` is wrapped into [-2^31, 2^31), differs from the original by a multiple of 2^32, and is unchanged when already in range |
| Generators.LeadingOne | index.ts:250 | adding 16^w to a number below 16^w makes `toString(16)` write a 1 followed by exactly w digits, leading zeros included |
| Generators.HexToRGB | index.ts:217-231 | a code succeeds exactly when it has 4 or 7 characters; every other length throws the source's message |
| Generators.HexToRGBABytes | index.ts:232-248 | a code succeeds exactly when it has 5 or 9 characters; every other length throws the source's message |
| Generators.RGBToHex | index.ts:249-251 | the code starts with "#"; `Generators.RGBToHexDigits` and `Generators.RGBRoundTrip` state its digits and its inverse |
| Generators.RGBAToHex | index.ts:252-254 | the code with alpha begins with the colour code of `RGBToHex`; `Generators.RGBARoundTrip` states its inverse |
| Generators.RGBToHexDigits | index.ts:249-251 | for channels in [0, 255], the code is "#" followed by two zero-padded lower-case digits per channel, seven characters in all |
| Generators.RGBRoundTrip | index.ts:217-251 | converting channels in [0, 255] to a code and back gives the same channels |
| Generators.RGBARoundTrip | index.ts:232-254 | converting channels and an alpha byte in [0, 255] to an 8-digit code and back gives the same channels and byte |
| Generators.HexCanonical | index.ts:223-251 | a "#" code of six hex digits converts to bytes that convert back to the same code in lower case |
| Generators.ShortForm | index.ts:218-222 | a short code "#rgb" of hex digits reads each digit d as the byte 17 * d |
| Generators.ShortFormDoubles | index.ts:218-227 | a short code converts like the long code with every digit doubled |
| Generators.HexExamples | index.ts:217-231 | "#f00" and "#ff0000" give (255, 0, 0), and "#ff" throws |

## Left out

- `safeStringify` is not modelled. It serialises object graphs by reference identity through `JSON.stringify`.
- `Random.*` and the random generators are not modelled: `colorRGB`, `colorRGBA`, `colorHex`, `IPv4`, `IPv6` and `UUID`. They depend on `Math.random` or `crypto.randomUUID`. Their formatting is not modelled either: `colorHex` and `IPv6` write `toString(16)` without zero padding, and `IPv4` joins four numbers with dots.
- `Date.*` is not modelled. It depends on the clock.
- The floating-point `Math` helpers are not modelled.
- The `/ 255` division of `hexToRGBA` is not modelled. Neither is the `Math.round(a * 255)` of `RGBAToHex`.
- The regex-based `String` helpers and the `Case.*` converters are not modelled.
- `Number.format`, `isValidEmail`, `isValidURL` and `isValidIPv4` are not modelled. They are thin wrappers over regular expressions.
- `isBool` and `censorPassword` are outside this core.
- Numbers are integers. Fractions, NaN and Infinity as arguments are not modelled, nor is the loss of precision of doubles above 2^53.
- Array elements are compared with the element type's own equality. The strict equality of `indexOf` differs in two ways that are not modelled: it never matches NaN, and it compares objects by reference.
- Strings are sequences of Dafny characters, not UTF-16 code units.
- Generators.RGBARoundTrip: takes the alpha channel as its byte, so the tolerance of 1/255 for a fractional alpha is not stated.
- Generators.RGBToHexDigits: describes the code only for channels in [0, 255]. Out-of-range channels carry into the neighbouring channel or wrap at 32 bits, as `ShiftLeft` defines, but no contract describes those codes.
- Numbers.Fibonacci: computes exact integers, where JavaScript doubles lose precision for large arguments.
- Maths.Factorial: computes exact integers, where JavaScript doubles lose precision or reach Infinity for large products.
- RomanNumerals.RomanNumeral: the minimal length of the greedy numeral is not proved. The round trip through the decoder is proved instead.
