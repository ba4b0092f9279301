# char_dev: a verified model of a one-buffer character device

`chardev.c` is a Linux kernel module that registers a character device,
`char_dev`, with two pieces of behaviour:

- an **exclusive-open gate**. The global `already_open` is either
  `CDEV_NOT_USED` (0) or `CDEV_EXCLUSIVE_OPEN` (1). `device_open` moves it
  from 0 to 1 with an atomic compare-and-swap and fails with `-EBUSY` when
  the swap does not happen. `device_release` stores 0 unconditionally.
- a **message buffer**, `static char msg[BUF_LEN + 1]` with `BUF_LEN = 80`.
  `device_write` copies up to 80 characters of the caller's data to the
  start of `msg` and never touches its last byte, so `msg` always ends in
  NUL. `device_read` takes the message length from `strlen(msg)`. It serves
  the message reversed, in chunks, with the file offset counting the
  reversed characters already served. When the offset reaches the message
  length, the read returns 0 and rewinds the offset to 0.

The model has three modules:

- `CString` (cstring.dfy): `Strlen` (the index of the first NUL), `NulFree`
  and `Reverse`, with the lemmas that characterise them.
- `ChardevSpec` (chardev_spec.dfy): the value-level specification.
  - `GateStep` and `GateAfter` describe the gate over a trace of open and
    release calls.
  - `Written` is the buffer after a write. `ReadStep` is one read: the
    characters served and the new offset. `ReadChunks` is a series of
    reads through one open file.
  - The lemmas state what the driver promises: mutual exclusion, the
    write/read round trip, chunked reads, the rewind at the end, and the
    stale tail.
- `Chardev` (chardev.dfy): class `CharDev`. It holds the module's static
  state as fields: `alreadyOpen: int` and `msg: array<char>` of length 81.
  - `Open`, `Release`, `Write` and `Read` follow the C functions statement by
    statement. `Write` has the `for` loop and `Read` has the `while` loop of
    the source.
  - Each of these methods is proved against the specification functions.
  - The object invariant `Valid()` says that `msg` has 81 characters, its
    last one is NUL, and the gate holds 0 or 1.

The length of the message comes from `strlen` over the whole buffer, not
from the size of the last write. A write with no NUL in it that is shorter
than the current message therefore leaves the rest of the old message
visible. Writing "hello world" and then "hi" reads back as the reversal of
"hillo world", not of "hi" (`ChardevSpec.HelloWorldThenHi`). A driver that
took the length from the size of the last write would give "ih"; this one
takes it from `strlen`.

`device_read` also tests `!*(msg + *offset)`. That test can never fire on its
own, because no NUL comes before `strlen(msg)`. `CharDev.Read` keeps the
test. Its postcondition ties the result to `ReadStep`, which tests only
`offset >= strlen`, and so shows that the extra test is redundant.

## Model

| member | source | states |
|---|---|---|
| CString.Strlen | chardev.c:84 | the message length is at most the buffer size; no NUL comes before it; when it is inside the buffer, the character there is NUL |
| CString.StrlenConcat | chardev.c:84 | a NUL-free prefix adds exactly its length to strlen |
| CString.StrlenSuffix | chardev.c:84 | dropping n characters that come before the first NUL shortens strlen by n |
| CString.ReverseAt | chardev.c:91-97 | character k of the reversal is character len-1-k of the original, the index that `start_pos` walks down |
| ChardevSpec.GateAfterValid | chardev.c:26-31 | starting from NOT_USED or EXCLUSIVE_OPEN, every sequence of opens and releases leaves the gate at one of those two values |
| ChardevSpec.OpenStepCases | chardev.c:69-73 | open succeeds exactly when the gate is NOT_USED, and then leaves it EXCLUSIVE_OPEN; otherwise it returns -EBUSY and leaves the gate unchanged |
| ChardevSpec.GateStaysHeld | chardev.c:69-70 | after a successful open, the gate stays EXCLUSIVE_OPEN through any calls that include no release |
| ChardevSpec.MutualExclusion | chardev.c:66-80 | if two opens in one trace both succeed, a release comes between them, and the call just before the later open is a release |
| ChardevSpec.ReleaseThenOpen | chardev.c:76-79 | release always returns SUCCESS and leaves the gate NOT_USED, whatever came before, so the next open succeeds |
| ChardevSpec.Cleared | chardev.c:33 | the static buffer starts all NUL, so the message starts empty |
| ChardevSpec.Written | chardev.c:104-113 | a write keeps the buffer size, never changes the last character, and so keeps strlen at most BUF_LEN |
| ChardevSpec.WrittenMessage | chardev.c:104-109 | after a write whose copied characters hold no NUL, the message is those characters followed by the old text that starts right after them |
| ChardevSpec.WriteReplacesMessage | chardev.c:104-109 | if the old buffer has a NUL just after the written characters, the message is exactly the written characters |
| ChardevSpec.WriteKeepsStaleTail | chardev.c:104-109 | a NUL-free write no longer than the old message replaces only its own length: the message is the new characters followed by the rest of the old message |
| ChardevSpec.WriteWithNul | chardev.c:104-109 | a write whose copied characters contain a NUL ends the message at the first such NUL |
| ChardevSpec.ReadStep | chardev.c:82-102 | a read serves at most `length` characters and never moves the offset past strlen; at or past strlen it serves nothing and rewinds the offset to 0; otherwise it serves min(length, strlen-offset) characters and advances the offset by that many; it serves nothing exactly when it is at the end or `length` is 0 |
| ChardevSpec.ReadStepAt | chardev.c:91-97 | character i of a read is `msg[strlen-1-offset-i]` |
| ChardevSpec.ReadStepIsReversedPrefix | chardev.c:91-97 | a read below strlen serves the reversal of `msg[0 .. strlen-offset)`, cut to min(length, strlen-offset) characters |
| ChardevSpec.ChunkedReads | chardev.c:82-102 | reads of positive sizes that stay within the message, each at the offset the previous one left, concatenate to the matching slice of the reversed message and move the offset by their total |
| ChardevSpec.ReadChunksAppend | chardev.c:99 | a series of reads splits at any point, because each read starts from the offset the previous one left |
| ChardevSpec.FullPassThenRestart | chardev.c:84-101 | a full pass of positive reads from offset 0 spells the reversed message and ends at offset strlen; the next read returns nothing and rewinds to 0; the read after that starts again from the last character |
| ChardevSpec.LastReadFinishes | chardev.c:91-99 | a read at an offset below strlen that asks for at least what is left serves the rest of the reversed message and leaves the offset at strlen |
| ChardevSpec.PassWithLongLastRead | chardev.c:84-101 | a pass of positive reads from offset 0 whose last read asks for more than is left still spells the whole reversed message and ends at offset strlen; the next read serves nothing and rewinds the offset to 0 |
| ChardevSpec.ReadWholeMessage | chardev.c:91-99 | one read from offset 0 that asks for at least strlen characters serves the whole message reversed and leaves the offset at strlen |
| ChardevSpec.WriteThenRead | chardev.c:82-113 | a NUL-free message of at most 80 characters, written over a buffer with a NUL right after it, reads back reversed in one large enough read, and the offset ends at its length |
| ChardevSpec.HelloWorldThenHi | chardev.c:82-113 | on a fresh device, writing "hello world" and then "hi" reads back as "dlrow ollih" |
| Chardev.CharDev.constructor | chardev.c:31-33 | the gate starts NOT_USED and the buffer all NUL |
| Chardev.CharDev.CompareExchange | chardev.c:69 | atomic_cmpxchg as one indivisible step: returns the old gate value and stores the new value only if the old one was the expected value |
| Chardev.CharDev.Open | chardev.c:66-74 | returns SUCCESS exactly when the gate was NOT_USED, and then the gate is EXCLUSIVE_OPEN; otherwise returns -EBUSY with the gate unchanged; agrees with `GateStep` |
| Chardev.CharDev.Release | chardev.c:76-80 | returns SUCCESS and sets the gate to NOT_USED from any state; agrees with `GateStep` |
| Chardev.CharDev.Write | chardev.c:104-113 | returns min(length, BUF_LEN); the buffer becomes `Written(old buffer, data)`, so only the first n characters change and the final NUL stays |
| Chardev.CharDev.Read | chardev.c:82-102 | returns the count, the characters and the new offset that `ReadStep` gives for the current buffer (character i is `msg[strlen-1-offset-i]`); the extra NUL test never changes the outcome; nothing else changes |

## Left out

- Module registration and teardown (`chardev_init`, `chardev_exit`, chardev.c:44-64, 115-116): kernel API calls with no logic of their own.
- Module reference counting (`try_module_get`, `module_put`, chardev.c:72, 78): foreign kernel calls whose results the code ignores.
- Logging with `pr_info` and `pr_alert`: it only produces output.
- Faults of `put_user` and `get_user`: the code ignores them, so the model copies each character without fail. The user buffers are a `seq<char>` in and a returned `seq<char>` out.
- Concurrency: `atomic_cmpxchg` is one indivisible step of a sequential model. The unsynchronised sharing of `msg` between callers is outside a sequential model.
- Negative `loff_t` offsets: the code does not guard against them, and the model takes the offset as a `nat`. The `size_t` length is a `nat` as well. `bytes_read` and `msg_len` stay within 0..80 and `start_pos` within -1..79, so their C widths do not matter.
- The `inode` and `file` arguments: the code uses them only for logging. The file offset that a read moves is a parameter and a result of `Read`.
- miModulo.c: a module constructor and destructor that only log a message, with no state or logic.
