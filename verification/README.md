# Verification of the trading stack's codecs, secret store, password validator and risk engine

This project models the parts of the trading stack whose correctness is a matter of arithmetic, of text
formats or of thread interleavings, and proves properties of them in Dafny 4.11. To verify the
project, use `dafny verify dfyconfig.toml`.

## What is modelled

* **Base58** (`Base58.dfy`): the signer's decoder and encoder, with their carry loops over little-endian
  digits. Each pass is proved to be exact bignum arithmetic, and the two functions to be inverse bijections.
* **Base64 and base32** (`BitStream.dfy`, `Base64.dfy`, `Base32.dfy`): loops that keep bits in an integer which
  wraps around and is never masked. One invariant, `BitStream.Streaming`, says that the output so far, followed
  by the pending low bits, is the input so far; the higher bits never matter.
* **The secret store** (`SecretStore.dfy`): the `key=value` listing, the five-line file, and the store's
  operations on its map. The cipher is an abstract pair of functions whose second undoes the first.
* **Time-based one-time passwords** (`Totp.dfy`, `Decimals.dfy`): counter bytes, truncation, zero padding and
  the drift window, over an HMAC of which only the length of the result is known.
* **The Pump.fun client** (`Client.dfy`): percent-encoding and URL printing, against a parser that reads URLs
  back; and the retry loop with its total waiting time.
* **The risk engine**, in layers. `Portfolio.dfy` states the risk rules as facts about whole portfolios,
  with exposure a sum over a map in whatever order it is walked. `EngineSteps.dfy` is a step system: every
  critical section, atomic access and thread-local decision of a submitter, the price feed, the limit updater,
  the owner and the worker is one step; an impossible action leaves the state alone, so every sequence of
  actions is a run and a lemma about all sequences covers all interleavings. The owner's start and stop are
  serialized; everything else interleaves freely. `EngineStop.dfy` is about stopping: that the join returns, and what
  it can leave behind. `Engine.dfy` is the class with the engine's fields; its
  methods are proved against the functions the step system is made of.

`Radix.dfy` holds positional notation (values, bounds, uniqueness of representations), `Text.dfy` searching and
splitting, `Common.dfy` the shared value types. The source's growing vectors are sequences that the methods
reassign; strings are sequences of octets where the code indexes tables with them.

## Where the code does not do what one might expect

* A saved store loads back exactly when no key has `=` or a newline and no value has a newline
  (`SecretStore.SaveLoadRoundTrip`); `SecretStore.EqualsInKeyMoves` shows a pair that comes back under another key.
* The time step is the number of 30-second steps since the epoch exactly when the time is not before the epoch
  (`Totp.StepIsFloor`): the division is by an unsigned constant. `Totp.StepBeforeEpoch` gives the value one
  second before it.
* With the exposure limit off, the gate does not ask for a price, so an accepted order can make the monitor speak.
  The exact condition is in `Portfolio.AcceptedKeepsHealthy`, a concrete order in `Portfolio.AcceptedUnpricedOrder`.
* After `stop`, an accepted order can be left in the queue. At the worker's final swap this can still happen exactly
  when a call is then between its running check and its push (`EngineStop.DrainCondition`). Two whole runs that end so:
  the push comes after the worker has gone (`EngineSteps.LatePushIsStranded`), or between its final swap and its exit
  (`EngineStop.PushDuringDrainIsStranded`).
* `docs/runbook.md` line 66 says that failures are retried three times; the default policy makes three calls in
  all, so it retries twice (`Client.RetryPolicy.PerformGet`). The model follows the code.
* `docs/security.md` line 29 asks for six-digit codes; the validator accepts six to eight digits, as
  `src/security/totp.h` says. The model follows the code.

## Model

| member | source | states |
|---|---|---|
| Base58.BuildIndexes | src/security/solana_signer.cpp:17-24 | the table maps every character of the alphabet to its place and every other one of the 256 to -1 |
| Base58.CarryPass | src/security/solana_signer.cpp:131-136 | the inner loop keeps all digits below the base (so narrowing loses nothing), the carry below the factor (57 and 255), and the exact product plus addend as digits plus carry times the next power |
| Base58.MultiplyAdd | src/security/solana_signer.cpp:167-179 | one outer step turns the number into factor times it plus the addend, never creates a zero top digit, and pushes at most one byte when decoding and at most two digits when encoding |
| Base58.CarryBound | src/security/solana_signer.cpp:131-136 | the new carry is again below the factor, and a digit that was not zero leaves a zero digit only with a carry |
| Base58.AccumulateBytes | src/security/solana_signer.cpp:123-141 | the loop rejects exactly the strings with a foreign character; otherwise its bytes spell the string's base-58 number, with no zero on top |
| Base58.DecodeBase58 | src/security/solana_signer.cpp:118-155 | decoding succeeds if and only if every character is in the alphabet, and an invalid character is an error; the result has the text's number and a zero byte for each leading '1' |
| Base58.DecodedMeans | src/security/solana_signer.cpp:118-155 | exactly the texts over the alphabet decode, to the byte string with the text's number and as many leading zero bytes as the text has leading ones |
| Base58.TrimTop | src/security/solana_signer.cpp:181-184 | dropping zero digits from the top keeps the number and leaves no zero on top |
| Base58.EncodeBase58 | src/security/solana_signer.cpp:157-191 | encoding is a '1' for each leading zero byte and then the shortest base-58 form of the number |
| Base58.EncodedMeans | src/security/solana_signer.cpp:157-191 | the encoding is over the alphabet, and has the bytes' number and as many leading ones as there are leading zero bytes |
| Base58.ZerosAndNumberDetermine | src/security/solana_signer.cpp:118-191 | two digit sequences with the same number and as many leading zeros are the same, so the two meanings leave no choice |
| Base58.DigitOfGlyph | src/security/solana_signer.cpp:14-24 | the digit of an alphabet character is its place in the alphabet |
| Base58.DecodeUndoesEncode | src/security/solana_signer.cpp:118-191 | every byte string, empty and all-zero ones included, survives encoding and decoding |
| Base58.EncodeUndoesDecode | src/security/solana_signer.cpp:118-191 | every string over the alphabet is the encoding of what it decodes to |
| Base58.EncodedLength | src/security/solana_signer.cpp:157-191 | n bytes print in at least n and at most ceil(11n/8) characters |
| Base58.PublicKeyLength | src/security/solana_signer.cpp:114-116 | a public key prints in 32 to 44 characters |
| BitStream.Read | src/security/secret_store.cpp:319-321 | shifting a number into an accumulator that may have lost any multiple of 2^32 appends exactly its bits to the pending ones |
| BitStream.Emit | src/security/secret_store.cpp:322-325 | shift and mask put out the next group of bits, whatever the accumulator's higher bits are |
| BitStream.StopPadded | src/security/secret_store.cpp:328-330 | when less than a group is pending, the output with the last group filled by zero bits is the regrouping of the whole input |
| BitStream.Stop | src/security/secret_store.cpp:349-362 | when less than a group is pending, the output is the whole groups of the input's bits |
| BitStream.RegroupValue | src/security/secret_store.cpp:337-363 | the whole groups spell the number of all the bits divided by the power of two of the bits left over |
| BitStream.RegroupBack | src/security/secret_store.cpp:313-363 | bytes regrouped into groups of at most eight bits, zero-filled, and regrouped to bytes are the same bytes |
| Base64.EncodeBase64 | src/security/secret_store.cpp:313-335 | the streaming encoder with its wrapping accumulator gives the three-byte-group encoding of section 4 of RFC 4648 |
| Base64.EncodedIsPadded | src/security/secret_store.cpp:313-335 | grouping by threes is the same as cutting the bit string into zero-filled sextets and padding with '=' |
| Base64.Pad | src/security/secret_store.cpp:331-333 | the loop appends exactly the padding that completes a group of four |
| Base64.BuildTable | src/security/secret_store.cpp:338-341 | the table answers for every character as the alphabet says |
| Base64.DecodeBase64 | src/security/secret_store.cpp:337-363 | decoding succeeds if and only if only alphabet characters stand before the first '=', whatever the unmasked accumulator overflows to; the n characters give floor(6n/8) bytes |
| Base64.DecodedMeans | src/security/secret_store.cpp:337-363 | the bytes spell the number of the sextets before the first '=' without the bits left over; any other character there is an error |
| Base64.DecodeUndoesEncode | src/security/secret_store.cpp:313-363 | every byte string survives encoding and decoding |
| Base64.EncodedShape | src/security/secret_store.cpp:313-335 | the encoding of n bytes has 4 ceil(n/3) characters, all of them alphabet characters or '=' |
| SecretStore.Serialize | src/security/secret_store.cpp:269-278 | in whatever order the map is walked, the text is the newline-separated listing of each entry once, without a final newline |
| SecretStore.Deserialize | src/security/secret_store.cpp:280-295 | the reading loop gives the map or the error of the line parser that `SecretStore.DeserializedMeans` describes |
| SecretStore.DeserializedMeans | src/security/secret_store.cpp:280-295 | a listing is refused if and only if a line that is not empty has no '='; otherwise the keys are exactly those with an entry, each with what follows the '=' of its first entry |
| SecretStore.ParseRefuses | src/security/secret_store.cpp:285-292 | the first malformed line is the one reported |
| SecretStore.ListingRoundTrip | src/security/secret_store.cpp:269-295 | for every map and every walking order, parsing the listing gives the map back if and only if keys have no '=' or newline and values no newline |
| SecretStore.ParsedIsStorable | src/security/secret_store.cpp:280-295 | whatever the parser accepts lies in the printer's round-trip domain |
| SecretStore.ParsingIsStable | src/security/secret_store.cpp:269-295 | a map that was parsed survives printing in any order and parsing again |
| SecretStore.EqualsInKeyMoves | src/security/secret_store.cpp:269-295 | the key `a=b` with value `c` comes back as key `a` with value `b=c` |
| SecretStore.ParseField | src/security/secret_store.cpp:297-308 | a field line is split at its first ':'; the name must be the expected one and the rest base64, with the three errors told apart |
| SecretStore.ParseFields | src/security/secret_store.cpp:81-85 | the four fields are read in order and the first bad one decides the error |
| SecretStore.FieldAccepted | src/security/secret_store.cpp:297-308 | a line is accepted if and only if it is the name, a ':', and up to any '=' only base64 characters, with the rest decoded as its value; no ':' is an invalid field, another name an unexpected one, and the rest an error of base64 |
| SecretStore.FieldsAccepted | src/security/secret_store.cpp:81-85 | the envelope is accepted if and only if each of the four lines is, each with its own field |
| SecretStore.FieldsRefused | src/security/secret_store.cpp:81-85 | the first of the four fields that is refused gives the error |
| SecretStore.ReadLines | src/security/secret_store.cpp:63-78 | repeated `getline` yields the text's lines, and nothing after a final newline |
| SecretStore.FileRoundTrip | src/security/secret_store.cpp:61-104 | the lines of a written file are the five lines that were written |
| SecretStore.FieldsRoundTrip | src/security/secret_store.cpp:81-100 | the four fields of a written file are read back as the envelope that was written |
| SecretStore.SavedLines | src/security/secret_store.cpp:91-101 | the saved file's lines are the version, and salt, iv, ciphertext and tag in base64 behind their names |
| SecretStore.SaveLoadRoundTrip | src/security/secret_store.cpp:61-104 | for every salt, iv, map and walking order, and every cipher that inverts, loading the saved file gives the map if and only if it is storable |
| SecretStore.LoadedMeans | src/security/secret_store.cpp:61-89 | loading gives a map if and only if the first line is the version, there are five lines, their fields are accepted, the cipher opens the envelope and the plaintext parses to that map |
| SecretStore.Store.constructor | src/security/secret_store.cpp:51-52 | a new store holds no secrets |
| SecretStore.Store.SetSecret | src/security/secret_store.cpp:106-114 | the key has the new value, whether or not it had one before; no other entry changes |
| SecretStore.Store.GetSecret | src/security/secret_store.cpp:116-122 | the value when the key is present, nothing otherwise |
| SecretStore.Store.ListKeys | src/security/secret_store.cpp:124-131 | every key exactly once, in some order |
| SecretStore.Store.EraseSecret | src/security/secret_store.cpp:133-139 | the key is gone, present before or not; no other entry changes |
| SecretStore.Store.Save | src/security/secret_store.cpp:91-104 | the file is a byte string, the sealed listing in five lines, and loading it gives the store's map exactly when that is storable |
| SecretStore.Store.Load | src/security/secret_store.cpp:61-89 | the first failing step, of version, length, fields, cipher and listing, gives its own error and leaves the store as it was; with none the map is replaced by the parsed one |
| SecretStore.SaveThenLoad | src/security/secret_store.cpp:61-104 | the very file that saving writes gives another store with the same password the same secrets if and only if they are storable |
| Base32.DecodeBase32 | src/security/totp.cpp:72-98 | decoding gives the first floor(5n/8) bytes of the n quintets before the first '=', however the accumulator overflows, and fails exactly when a character there is neither in the alphabet nor white space |
| Base32.DecodedMeans | src/security/totp.cpp:72-98 | the bytes spell the number of the quintets before the first '=' without the bits left over; a character there that is neither in the alphabet in either case nor one of the six white space characters is an error |
| Base32.QuintetOfAlphabet | src/security/totp.cpp:18-29 | every character of the alphabet of section 6 of RFC 4648 stands for its place, in lower case too |
| Base32.HasQuintet | src/security/totp.cpp:18-29 | no other character has a value |
| Base32.DecodeUndoesEncode | src/security/totp.cpp:72-98 | decoding undoes the encoding of section 6 of RFC 4648 for every byte string |
| Base32.CaseAndSpaceIgnored | src/security/totp.cpp:18-29 | texts that agree up to letter case and white space decode alike, errors included |
| Totp.CounterBytes | src/security/totp.cpp:103-108 | the loop fills the array with the counter's eight big-endian bytes |
| Totp.CounterBytesExact | src/security/totp.cpp:103-108 | read back as a number, the eight bytes are the counter |
| Totp.GenerateTotp | src/security/totp.cpp:100-126 | the password is the number of the four HMAC bytes at the place that the low nibble of the last byte names, without the top bit, modulo the power of ten |
| Totp.PasswordIs | src/security/totp.cpp:117-125 | the same of the function that the validator is stated with |
| Totp.StandardExample | src/security/totp.cpp:117-125 | the HMAC of section 5.4 of RFC 4226 gives 872921 |
| Totp.FourBytes | src/security/totp.cpp:117-119 | masking and or-ing four bytes is reading them as a big-endian number without its top bit |
| Decimals.ZeroPadIsFixed | src/security/totp.cpp:31-35 | a number that fits is padded to its fixed-width decimal digits |
| Decimals.CodeValueReads | src/security/totp.cpp:31-35 | a decimal text is read digit by digit, the last one worth its face |
| Totp.PadInvertsReading | src/security/totp.cpp:31-35 | a padded number equals a code exactly when the code's decimal value is the number |
| Totp.SearchWindow | src/security/totp.cpp:58-69 | the search succeeds exactly when some non-negative counter within the drift gives the code |
| Totp.WindowIs | src/security/totp.cpp:58-69 | the window written out: from the step less the drift to the step plus the drift, both included |
| Totp.WellFormedIs | src/security/totp.cpp:43-47 | codes of six to eight digits and no others are looked at |
| Totp.Validate | src/security/totp.cpp:41-70 | accepts exactly the six to eight digit codes whose value is the password of some non-negative counter in the window, for a decodable secret that is not empty; an undecodable one is an error only for a well-formed code |
| Totp.StepIsFloor | src/security/totp.cpp:55-56 | the step is the floor of time by 30 if and only if the time is not before the epoch |
| Totp.StepBeforeEpoch | src/security/totp.cpp:55-56 | the step one second before the epoch |
| Client.EncodeQueryParam | src/market_data/pumpfun_client.cpp:518-533 | unreserved characters print as themselves, every other octet as '%' and two upper-case hexadecimal digits |
| Client.EncodedCharIs | src/market_data/pumpfun_client.cpp:523-530 | an octet of the unreserved list of section 2.3 of RFC 3986 prints as itself, any other as a percent sign and its two upper-case hexadecimal digits |
| Client.DecodeUndoesEncode | src/market_data/pumpfun_client.cpp:518-533 | percent-decoding gives every byte string back |
| Client.EncodedFree | src/market_data/pumpfun_client.cpp:518-533 | an encoded text has no '?', '&' or '=' |
| Client.NormalizeBaseUrl | src/market_data/pumpfun_client.cpp:73-78 | exactly the trailing slashes are removed |
| Client.LocationOfClient | src/market_data/pumpfun_client.cpp:80-101 | with the base and endpoint the constructor keeps, the location is their concatenation |
| Client.OneSlashBetween | src/market_data/pumpfun_client.cpp:383-398 | between base and endpoint stands one slash, whichever of the two brought one |
| Client.NothingBetween | src/market_data/pumpfun_client.cpp:383-387 | with one of them empty the location is the other |
| Client.BuildUrl | src/market_data/pumpfun_client.cpp:380-415 | location and query as the reader of `Client.UrlRoundTrip` expects them |
| Client.UrlRoundTrip | src/market_data/pumpfun_client.cpp:380-415 | splitting at '?', '&' and '=' and percent-decoding gives the location and the very list of parameters, in order |
| Client.UrlsDiffer | src/market_data/pumpfun_client.cpp:380-415 | distinct parameter lists give distinct URLs |
| Client.RetryPolicy.SetRetryPolicy | src/market_data/pumpfun_client.cpp:134-145 | no attempts or a negative delay is refused and changes nothing |
| Client.Retry | src/market_data/pumpfun_client.cpp:421-453 | the loop ends; a limit of 0 makes one call; otherwise there are at most as many calls as the limit, as many as the limit if none succeeds, and k if the first success is at k within it; the time slept is initial times (2^(calls-1) - 1) |
| Client.RetryPolicy.PerformGet | src/market_data/pumpfun_client.cpp:417-454 | with the first success at k within the limit there are k calls and its result is returned; without one there are as many calls as the limit and the last failure is thrown |
| Portfolio.TotalSplit | src/trading/engine.cpp:294-304 | the exposure sum does not depend on the order in which the map is walked: any symbol may be taken out first |
| Portfolio.TotalIsList | src/trading/engine.cpp:294-304 | over priced symbols the sum is that of size times price along any list of the symbols |
| Portfolio.ListOf | src/trading/engine.cpp:295 | every set of symbols has such a list |
| Portfolio.ExposureApplied | src/trading/engine.cpp:289-304 | executing an order changes one term of the exposure sum |
| Portfolio.AppliedPosition | src/trading/engine.cpp:242-248 | a buy adds its quantity to the position, a sell takes it away, and no other symbol changes |
| Portfolio.GateMeans | src/trading/engine.cpp:250-311 | the gate written out: the projected position lies within the enabled limit on both sides, and with the exposure limit on everything is priced and the sizes times prices add up to no more than the limit |
| Portfolio.DueMeans | src/trading/engine.cpp:319-358 | each of the five warnings written out |
| Portfolio.MonitorAgrees | src/trading/engine.cpp:313-359 | no warning is due if and only if every held symbol is priced and the enabled limits hold, so one symbol's exposure breach is a breach of the aggregate |
| Portfolio.AcceptedKeepsHealthy | src/trading/engine.cpp:250-311 | executing an accepted order keeps the monitor silent if and only if the exposure limit is on or the order's symbol is priced |
| Portfolio.AcceptedUnpricedOrder | src/trading/engine.cpp:267-269 | an accepted order that makes the monitor speak |
| Portfolio.ReducingIsAccepted | src/trading/engine.cpp:250-311 | from a silent state, an order that does not enlarge the position's size passes the gate |
| EngineSteps.RiskAlways | src/trading/engine.cpp:198-248 | in every reachable state, positions are the replay of the worker's decisions, each decision follows the rules on the book it was made on, and a check still holds when its order is about to be applied |
| EngineSteps.SafeAfterEveryExecution | src/trading/engine.cpp:198-210 | just after any execution of any run, the whole portfolio at the prices its re-check saw is within the exposure limit its re-check saw, and its symbol within the position limit |
| EngineSteps.ExposureAlwaysBounded | src/trading/engine.cpp:198-311 | in every reachable state the portfolio is within the exposure limit that the last execution was checked against, at that check's prices |
| EngineSteps.PositionAlwaysBounded | src/trading/engine.cpp:200-265 | in every reachable state a symbol's position is within the limit its last execution was checked against |
| EngineSteps.FixedLimitNeverExceeded | src/trading/engine.cpp:131-265 | under a fixed position limit no symbol ever exceeds it, however many queued orders passed the check at submission |
| EngineSteps.PositionsAreSignedSums | src/trading/engine.cpp:242-248 | in every reachable state a position is what was bought of its symbol less what was sold, over the executed orders, and a symbol is held exactly when one was executed |
| EngineSteps.BookkeepingAlways | src/trading/engine.cpp:103-196 | in every reachable state, the orders pushed are in order those decided, those the worker holds and those queued; serial numbers are distinct; receipts follow pushes; after the final swap only calls that were in flight can push |
| EngineSteps.ReceiptInOnePlace | src/trading/engine.cpp:143-196 | an order with a success receipt is in exactly one of the queue, the worker's batch, the executed and the rejected orders |
| EngineSteps.SameOrderId | src/trading/engine.cpp:411-414 | two printed ids agree exactly when the counters agree modulo 2^64 |
| EngineSteps.OrderIdsAreUnique | src/trading/engine.cpp:124-141 | of any two ids handed out in a run, whatever became of their orders, rejected at submission or not, the later has the larger number; until 2^64 are handed out they print differently |
| EngineSteps.PushedIdsAreUnique | src/trading/engine.cpp:143-147 | until 2^64 ids are handed out, no two orders in the queue's history have the same id |
| EngineSteps.StopDrains | src/trading/engine.cpp:35-43 | when `stop` has returned the worker is gone; if no call was in flight at the final drain, the queue is empty and every order pushed is decided |
| EngineSteps.StrandedUntilRestart | src/trading/engine.cpp:172-196 | what is in the queue after the worker has exited stays there until the next start |
| EngineSteps.StrandingCondition | src/trading/engine.cpp:106-147 | once the worker has exited with an empty queue, an order can still end up stranded if and only if a call is then between its running check and its push |
| EngineStop.DrainCondition | src/trading/engine.cpp:106-196 | at the final swap, some interleaving leaves an order queued when the worker has gone and `stop` has returned, if and only if a call is then between its running check and its push; pushes during the final drain included |
| EngineStop.StopReturns | src/trading/engine.cpp:35-43 | once stopped, in every interleaving without a new start the worker exits after a number of its own steps bounded in advance: two for each order queued, held or with a caller in flight, and after the final swap at most 2n+1 for the n orders held |
| EngineStop.StopReturnsSoon | src/trading/engine.cpp:35-43 | the bound written out |
| EngineSteps.LatePushIsStranded | src/trading/engine.cpp:106-147 | a run that ends stopped, with a success receipt for an order left in the queue |
| EngineStop.PushDuringDrainIsStranded | src/trading/engine.cpp:144-196 | a run that ends stopped with an order in the queue that was pushed between the final swap and the worker's exit |
| EngineSteps.FifoAlways | src/trading/engine.cpp:172-229 | with prices and limits fixed, the worker's decisions and book follow a sequential check-then-apply processor through any interleaving |
| EngineSteps.BatchingIsFifo | src/trading/engine.cpp:172-229 | wherever the worker cuts the arrivals into batches, its decisions so far and its book are at every moment those of one sequential fold over the orders in order of arrival |
| EngineSteps.HealthyAlways | src/trading/engine.cpp:198-359 | from a silent state with no order between check and update, with prices and limits fixed, the enabled limits hold in every reachable state, and the monitor stays silent exactly as long as the exposure limit is on or every held symbol is priced |
| EngineSteps.FifoAppend | src/trading/engine.cpp:198-229 | deciding two batches one after the other is deciding them as one |
| EngineSteps.WorkerDecidesBatch | src/trading/engine.cpp:198-229 | left alone, the worker's steps on a batch end in exactly the state the sequential processor gives |
| Engine.RiskManagedEngine.constructor | src/trading/engine.cpp:20 | a new engine is the step system's initial state |
| Engine.RiskManagedEngine.Start | src/trading/engine.cpp:26-33 | running afterwards; nothing else changes |
| Engine.RiskManagedEngine.Stop | src/trading/engine.cpp:35-43 | stopped afterwards; if it ran, the undisturbed final drain decides the whole queue one order at a time and empties it |
| Engine.RiskManagedEngine.UpdateRiskLimits | src/trading/engine.cpp:49-52 | the limits are replaced; nothing else changes |
| Engine.RiskManagedEngine.UpdateMarkPrice | src/trading/engine.cpp:90-101 | a positive price of a named symbol is stored, anything else is ignored |
| Engine.RiskManagedEngine.SubmitOrder | src/trading/engine.cpp:103-170 | undisturbed, a call is refused for the first of: not running, no symbol, no positive quantity, and then changes nothing; otherwise it uses up one id and queues the order with the request's own data exactly when the rules accept it |
| Engine.SubmitIsFiveSteps | src/trading/engine.cpp:103-170 | the undisturbed call is the run of the caller's five steps |
| Engine.OutsideSteps | src/trading/engine.cpp:49-122 | the steps of the price feed and the limit updater, and when a call is let in, written out |
| Engine.OwnerSteps | src/trading/engine.cpp:26-43 | the owner's steps written out: a second start or stop does nothing, and `stop` waits for the worker's exit |
| Engine.RiskManagedEngine.RouteQueue | src/trading/engine.cpp:174-182 | swap and routing empty the queue and decide its orders one at a time |
| Engine.RouteQueueIsWorkerSteps | src/trading/engine.cpp:174-196 | the undisturbed round of the method is a run of the worker's steps, with the same shared state at the end, for an ordinary round and for the final drain |
| Engine.RiskManagedEngine.RoutePendingOrders | src/trading/engine.cpp:198-229 | an undisturbed batch is decided as the sequential processor decides it |
| Engine.RiskManagedEngine.UpdatePositionTracking | src/trading/engine.cpp:242-248 | a buy raises its symbol's position by the quantity, a sell lowers it by that, no other symbol and nothing else changes |
| Engine.RiskManagedEngine.ApplyRiskChecks | src/trading/engine.cpp:250-311 | walking the map in any order, with its early exits, the gate accepts exactly when the whole portfolio after the order meets the enabled limits at known prices |
| Engine.RiskManagedEngine.OtherExposure | src/trading/engine.cpp:295-304 | the loop adds up the other positions' exposure, or stops at one without a price |
| Engine.RiskManagedEngine.EvaluateAggregateRisk | src/trading/engine.cpp:313-367 | in any walking order, the warnings are exactly those due, and there are none if and only if the portfolio is healthy |
| Engine.RiskManagedEngine.SymbolWarnings | src/trading/engine.cpp:320-346 | the warnings about one symbol are exactly those due for it |
| Engine.RiskManagedEngine.GenerateOrderId | src/trading/engine.cpp:411-414 | the counter goes up by one and the id prints it as a 64-bit number |

## Left out

- OpenSSL: AES-GCM, PBKDF2 and random bytes are an abstract cipher and parameters (salt and iv are any bytes), HMAC-SHA1 is any
  function with a 20-byte result, and Ed25519 keys and signatures (`src/security/solana_signer.cpp:47-108`) are not modelled.
- Failures of those calls other than failing to decrypt, and failures of reading and writing files: a file is its text.
- Floating point: quantities, prices and limits are real numbers, so rounding, infinities and NaN are not modelled.
- Totp.Validate: excludes the two most extreme values of the drift, where the source's `int` loop variable overflows, because that has no defined meaning in the source; it takes the time in whole seconds.
- Client.Retry: does not model the overflow of a 64-bit delay, because delays are whole numbers without a bound; each attempt is a function of its number.
- EngineSteps.OrderIdsAreUnique: holds below 2^64 orders only, because the 64-bit counter then wraps; the step system's own serial numbers do not wrap.
- Engine.RiskManagedEngine.Stop: covers a stop with no batch under way and no concurrent call, because a method runs alone; stopping under interference is `EngineStop.StopReturns`, `EngineStop.DrainCondition` and `EngineSteps.StopDrains`.
- Signed shifts that overflow in the base32 and base64 decoders are taken to wrap in two's complement.
- Growing vectors are sequences, so aliasing and in-place reuse of their storage are not captured.
- The worker's endless loop is modelled by its steps in `EngineSteps.dfy`; the class has one round of it and the final drain.
- Notifications, callbacks, receipts' texts, logging, sleeping, time stamps and status reports: wording and timing only.
  The worker's decisions are kept as a history, a receipt as its kind and order id.
- Erasing secrets from memory: it does not change any result.
- libcurl, JSON parsing, default headers, subscriptions and their threads, the Pump.fun bridge, the Telegram bot and client, the
  user interface and the demo programs.
