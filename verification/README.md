# Free-GPU resolver

A Dafny model of the GPU helper in `model/gpu_util.py`. It has two parts.

- `get_free_gpus` reads the inventory table printed by `nvidia-smi --query-gpu=index,gpu_bus_id`. It fills a dictionary from bus id to GPU index. It then deletes every bus id that the compute-apps table (`--query-compute-apps=pid,gpu_bus_id`) lists, and returns the remaining indices in ascending order.
- `use_single_gpu` picks a single device:
  - `CUDA_VISIBLE_DEVICES` set to one index: that index.
  - The variable set to a comma-separated list: its first entry.
  - The variable unset: the highest free index. The active CUDA device is switched to it.

Inputs become plain values:
- the two query outputs are strings;
- the environment variable is an `Option<string>`;
- the call to `torch.cuda.set_device` is recorded as the `rebind` flag of the result.

Every exception the code can raise is an `Err` value:
- `FieldCount`: a ValueError when a line does not unpack into two fields.
- `NotAnInteger`: a ValueError from `int()`.
- `UnknownBusId`: a KeyError from `del`.
- `NoFreeGpu`: an IndexError from `[0]` on an empty list.

`builtins.dfy` (module `Builtins`) defines the Python built-ins the code relies on, as functions:
- `str.strip()`, using the `str.isspace` character set;
- `str.split(sep)`, keeping empty pieces;
- `int()` on a decimal literal, with the whitespace it skips and CPython's default limit of 4300 digits;
- `sorted()`.

`gpu_util.dfy` (module `GpuUtil`) holds:
- the per-line parsers;
- the two loops stated as left folds (`AddInventory`, `RemoveBusy`);
- the imperative `GetFreeGpus`, whose loops are proved against those folds;
- the selection function `Select`;
- `UseSingleGpu`;
- lemmas about all of these.

The model keeps three details of the code:
- Bus ids are compared as exact strings after each line is stripped. A bus id therefore keeps the space that follows the comma.
- A GPU shared by two compute processes is listed twice, so the second `del` raises a KeyError (`SharedGpuFails`).
- With the variable unset, the chosen device is the last element of the ascending list, which is the highest free index.

## Model

| member | source | states |
|---|---|---|
| Builtins.Strip | model/gpu_util.py:22 | `str.strip()`: the result starts and ends with non-whitespace and is no longer than the input |
| Builtins.StripPadded | model/gpu_util.py:25 | stripping removes exactly the whitespace padding around trimmed text and nothing else |
| Builtins.Split | model/gpu_util.py:22 | `str.split(sep)`: one more piece than separators, no piece holds the separator, and joining the pieces with the separator gives back the input |
| Builtins.SplitJoin | model/gpu_util.py:22 | splitting the join of separator-free pieces gives back the pieces |
| Builtins.SplitPair | model/gpu_util.py:25 | two comma-free texts joined by a comma split back into exactly those two |
| Builtins.FirstPiece | model/gpu_util.py:56 | the first piece of `split(',')` is the text before the first comma |
| Builtins.SplitInTwo | model/gpu_util.py:25 | a text with one separator splits into two pieces that surround that separator |
| Builtins.ParseStripped | model/gpu_util.py:26 | `int()` of stripped text succeeds exactly when it is an optional `+` or `-` followed by one to 4300 ASCII digits; a negative result needs the minus sign |
| Builtins.ParseInt | model/gpu_util.py:26 | `int()` succeeds exactly when the text holds none of U+001C..U+001F and its stripped text is a literal as above |
| Builtins.PaddedClean | model/gpu_util.py:26 | a digit or signed literal padded with whitespace that `int()` skips holds none of U+001C..U+001F, so `int()` does not reject it |
| Builtins.ParsePaddedDigits | model/gpu_util.py:26 | `int()` reads a run of at most 4300 ASCII digits as its value, whatever whitespace it skips surrounds it |
| Builtins.TooManyDigitsRejected | model/gpu_util.py:26 | a run of more than 4300 digits makes `int()` fail, whatever whitespace surrounds it |
| Builtins.ParsePaddedSigned | model/gpu_util.py:60 | `int()` reads a `+` or `-` followed by at most 4300 digits as the signed value, whatever whitespace it skips surrounds them |
| Builtins.ParseDecimal | model/gpu_util.py:26 | `int()` reads back the decimal spelling of any non-negative n of at most 4300 digits, whatever whitespace it skips surrounds it |
| Builtins.SeparatorControlRejected | model/gpu_util.py:26 | a leading U+001C..U+001F is removed by `str.strip()` but makes `int()` fail |
| Builtins.SortAscending | model/gpu_util.py:38 | `sorted()`: the result is ascending and a permutation of the input |
| GpuUtil.ParseRecord | model/gpu_util.py:25 | unpacking into two fields succeeds exactly when the stripped line holds one comma; the fields are the comma-free texts on either side of it; otherwise the error is the line's ValueError |
| GpuUtil.Lines | model/gpu_util.py:22 | the lines hold no newline, and joined with newlines they give back the stripped output |
| GpuUtil.ParseEntry | model/gpu_util.py:25-26 | succeeds exactly when the line unpacks and `int()` accepts its first field; the entry's bus id is the text after the comma and its index is `int()` of the text before it; failures are a FieldCount or NotAnInteger error |
| GpuUtil.AddLine | model/gpu_util.py:23-26 | an empty line leaves the dictionary unchanged; a successful turn keeps every key and adds at most one |
| GpuUtil.AddInventory | model/gpu_util.py:21-26 | the inventory loop only adds keys; its full meaning is `AddInventoryIff` |
| GpuUtil.RemoveLine | model/gpu_util.py:34-37 | an empty line leaves the dictionary unchanged; a successful turn only removes keys |
| GpuUtil.RemoveBusy | model/gpu_util.py:33-37 | the delete loop only removes keys; its full meaning is `RemoveBusyIff` |
| GpuUtil.FreeGpuMap | model/gpu_util.py:21-37 | the dictionary left after both loops exists only when the inventory loop succeeded, and its keys are inventory keys; its full meaning is `FreeGpusAreUnlisted` |
| GpuUtil.RecordParses | model/gpu_util.py:25 | a trimmed `first,busid` line unpacks into exactly `first` and `busid` |
| GpuUtil.EntryParses | model/gpu_util.py:25-26 | a trimmed `idx,busid` line with a decimal idx of at most 4300 digits yields the entry `gpus[busid] = idx` |
| GpuUtil.LinesOf | model/gpu_util.py:22 | trimmed output that is the newline-join of newline-free lines is split back into those lines |
| GpuUtil.Indices | model/gpu_util.py:38 | the list comprehension holds every dictionary value, each as many times as bus ids map to it |
| GpuUtil.ValuesListed | model/gpu_util.py:38 | a list with the dictionary's value multiplicities is empty exactly when the dictionary is empty, and holds exactly its values |
| GpuUtil.CountAdd | model/gpu_util.py:26 | adding a new bus id raises the count of its index by one and leaves other counts unchanged |
| GpuUtil.FillInventory | model/gpu_util.py:21-26 | the inventory loop computes exactly the left fold `AddInventory` over the lines, whose meaning `AddInventoryIff` states |
| GpuUtil.RemoveProcesses | model/gpu_util.py:33-37 | the `del` loop computes exactly the left fold `RemoveBusy` over the lines, whose meaning `RemoveBusyIff` states |
| GpuUtil.GetFreeGpus | model/gpu_util.py:10-38 | fails exactly when the two loops raise, with the same exception; otherwise returns an ascending list with each index as often as the remaining dictionary holds it |
| GpuUtil.InventorySkipsBlank | model/gpu_util.py:22-24 | an empty inventory line changes nothing, wherever it stands |
| GpuUtil.BusySkipsBlank | model/gpu_util.py:33-35 | an empty compute-apps line changes nothing, wherever it stands |
| GpuUtil.MalformedLineFails | model/gpu_util.py:25-36 | a non-empty line without exactly one comma makes either loop body raise the line's ValueError |
| GpuUtil.InventoryMalformedFails | model/gpu_util.py:22-25 | a non-empty inventory line without exactly one comma makes the inventory loop fail, whatever lines come before or after it |
| GpuUtil.BusyMalformedFails | model/gpu_util.py:33-36 | a non-empty compute-apps line without exactly one comma makes the second loop fail, whatever lines come before or after it |
| GpuUtil.AddInventoryIff | model/gpu_util.py:21-26 | the inventory loop fails exactly when some line fails to parse, with the first such error; otherwise every listed bus id is a key and a repeated bus id holds its last index |
| GpuUtil.AssignedCons | model/gpu_util.py:26 | assigning one entry and then the rest is the same as assigning the whole list |
| GpuUtil.RemoveBusyIff | model/gpu_util.py:33-37 | the delete loop succeeds exactly when every line unpacks, no bus id repeats and every bus id is a key; it then removes exactly the listed bus ids |
| GpuUtil.DeleteThenRest | model/gpu_util.py:37 | deleting one bus id and then the rest has the same outcome and conditions as deleting them all at once |
| GpuUtil.DistinctCons | model/gpu_util.py:37 | a list prefixed with b has no repeats exactly when b is absent from the list and the list has none |
| GpuUtil.RemoveBusyError | model/gpu_util.py:36-37 | the delete loop's error is a KeyError or the first unpacking error; when every line unpacks it is a KeyError naming a listed bus id |
| GpuUtil.RemoveBusyStep | model/gpu_util.py:36-37 | the same error classification once the first line has unpacked |
| GpuUtil.SharedGpuFails | model/gpu_util.py:33-37 | a bus id listed twice (two processes on one GPU) ends in a KeyError |
| GpuUtil.CountMinus | model/gpu_util.py:37-38 | after bus ids are deleted, each index is counted once per bus id that remains |
| GpuUtil.FreeGpusAreUnlisted | model/gpu_util.py:21-38 | on success, the result is the inventory dictionary minus the busy bus ids, all of which were inventory keys; each index is counted once per idle bus id |
| GpuUtil.Reverse | model/gpu_util.py:51 | `[::-1]`: same length, with element i taken from position n-1-i |
| GpuUtil.FirstField | model/gpu_util.py:54-56 | the text before the first comma, or the whole text when there is no comma |
| GpuUtil.Select | model/gpu_util.py:48-60 | with the variable unset: the last free index (the maximum of a sorted list), rebound, or IndexError on no free GPU; with it set: `int()` of the text before the first comma, with no rebind, or the NotAnInteger error naming that text |
| GpuUtil.UseSingleGpu | model/gpu_util.py:41-64 | with the variable set, the queries are not consulted; with it unset, query errors propagate, and otherwise the device is the highest index that is still free, or IndexError when no GPU is free |
| GpuUtil.ReservedListUsesFirstEntry | model/gpu_util.py:54-56 | `"t,rest"` selects what `"t"` selects |
| GpuUtil.ReservedIndexSelected | model/gpu_util.py:58-60 | a variable holding the decimal n (at most 4300 digits) selects device n without a rebind |
| GpuUtil.ReservedListSelectsFirst | model/gpu_util.py:54-56 | a list whose first entry is the decimal n (at most 4300 digits) selects device n without a rebind |
| GpuUtil.UnsetPicksHighest | model/gpu_util.py:49-53 | with the variable unset and a non-empty sorted free list, the choice is its last, greatest element |
| GpuUtil.UnsetExample | model/gpu_util.py:49-53 | free indices [0, 2] with the variable unset select device 2 and rebind |

## Left out

- The `subprocess.Popen` / `communicate` calls to `nvidia-smi` (lines 15-20 and 27-32). Their stdout is a parameter, and stderr is ignored as in the code.
- `bytes.decode('utf-8')`: the text is taken as already decoded. A decoding error is not modelled.
- `os.linesep` is taken to be `"\n"`, as on Linux.
- `os.environ.get` (line 48): the variable's value is a parameter.
- `torch.cuda.set_device`, `torch.zeros(1, device="cuda")` and `torch.device` (lines 53, 63 and 73) are GPU-runtime calls. Only the request to switch device is recorded, as `Choice.rebind`. Errors those calls might raise are not modelled.
- The `__main__` block, `print_system_info`, the `print` and the extra `nvidia-smi` call (lines 67-73) are process plumbing.
- Builtins.ParseStripped: models `int()` on ASCII decimal literals only. Underscore digit separators and non-ASCII Unicode digits, which Python also accepts, are not modelled. The whitespace `int()` skips is modelled: it is the `str.isspace` set without U+001C..U+001F (`ParseInt`).
- Builtins.ParseInt: the digit limit is fixed at CPython's default of 4300 (`MaxStrDigits`). Changing it with `sys.set_int_max_str_digits` or `PYTHONINTMAXSTRDIGITS` is not modelled.
- Builtins.IsSpace: fixed to the characters for which `str.isspace()` holds in current CPython.
- GpuUtil.Indices: the dictionary's insertion order is not modelled. The map is visited in an arbitrary order. The result is sorted right away, so only the multiset of indices matters.
- Concrete `nvidia-smi` texts: the parsing properties are stated for all inputs of a given shape (`LinesOf`, `RecordParses`, `EntryParses`), not evaluated on a sample output.
