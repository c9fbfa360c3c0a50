# kbsession: session middleware and flash messages, modelled in Dafny

kbsession is HTTP middleware that sits on top of an external session store.
For each request it loads the session named `RootSession` and attaches it to
the request's context. Downstream handlers then fetch it with `Get`. `Save`
writes the session back unless it is new and empty. The package also offers
flash messages: short notifications filed by category under the reserved
session key `_flash_`. `AddFlash` appends a message to the list of its
category. `Flash` returns the whole table and deletes it from the session,
so each message is shown once.

Files:

- `session.dfy` (module `Sessions`) models `session.go`. It holds the
  `Session` class (the fields `isNew` and `values`, updated in place), the
  `Value` stored under a key (nil, a flash table, or any other value) and the
  request with the session its context carries. It also holds `Get`,
  `ServeHTTP` and `Save`. The store's `Get` is a function parameter from
  request and session name to a `LoadResult`. The outcome of the store's save
  is a boolean input. `ServeHTTP` returns a `Dispatch`: either an error
  response, or the one request the wrapped handler is called with.
- `flash.dfy` (module `FlashMessages`) models `flash.go`. `AddFlash` and
  `Flash` are methods that change the session's `values` in place. Each is
  specified by a function on the value table: `AddedFlash`, or `Pending` and
  `Consumed`. The properties are proved about those functions: append order,
  category isolation, read-once, and "no other key changes". The round trip
  from a sequence of additions to the table `Flash` returns is also proved.
- `lifecycle.dfy` (module `Lifecycle`) states the two-request story as a
  verified method that calls the methods above. The first request stores a success message, which
  forces a save. The second request shows the message once and saves the
  session without it.

The doc comment of `Save` (session.go:43) promises a write only when the
session has been accessed, that is, when it is new or was modified. The
condition at session.go:48 writes in more cases: it skips the write only when the
session is new *and* empty. So a session that came with the request is
written back even when nothing in it was modified. `Sessions.Save` follows
line 48, and its third postcondition states that case.

## Model

| member | source | states |
|---|---|---|
| `Sessions.Get` | session.go:38-41 | Returns the very session the middleware attached to the request. A request without one is a wiring error and is excluded by the precondition. |
| `Sessions.ServeHTTP` | session.go:20-30 | The handler answers with an error exactly when the store's `Get` of `RootSession` fails. The error is status 500 with the fixed body, and the wrapped handler is not called. Otherwise the wrapped handler is called once, with the same request, and `Get` on that request returns the loaded session. |
| `Sessions.Save` | session.go:43-55 | The store's save is skipped when the session is new and has no values. It is called when the session is new with values, and when the session is not new, even if it is empty. A save failure is only logged. The session is left unchanged (the method has no `modifies`). |
| `FlashMessages.Appended` | flash.go:24 | Appending to a category: that category's list becomes its old list (empty if absent) followed by the message. Every other category's list is unchanged, and the category becomes a key. |
| `FlashMessages.AddedFlash` | flash.go:20-28 | After adding a message, the reserved key holds a flash table. That table is the previous pending table with the message appended to its category. When the key was absent or nil, it becomes exactly `{category: [message]}`. No other session key changes. |
| `FlashMessages.Consumed` | flash.go:31-39 | After reading, no flash table is pending. A stored table's key is deleted. An absent or nil entry is left as it was, nil included. No other session key changes. |
| `FlashMessages.AddFlash` | flash.go:20-28 | The session's values become `AddedFlash` of the old values. `isNew` is unchanged. |
| `FlashMessages.Flash` | flash.go:31-39 | Returns the stored flash table, or the empty table when the key is absent or nil. The session's values become `Consumed` of the old values. `isNew` is unchanged. |
| `FlashMessages.FlashTwice` | flash.go:31-39 | With no addition in between, a second read returns the empty table and changes nothing more. |
| `FlashMessages.ApplyAdds` | flash.go:20-28 | Any sequence of additions keeps the flash entry well typed. It changes no key other than `_flash_`, and when the sequence is non-empty it leaves a flash table stored. |
| `FlashMessages.AddsCategories` | flash.go:20-28 | After a sequence of additions, the pending table's categories are the old ones plus every category added to. |
| `FlashMessages.AddsAppendInOrder` | flash.go:20-28 | After a sequence of additions, a category holds its previously pending messages, then the messages added to it, in the order added. It holds nothing added to another category. |
| `FlashMessages.AddsThenFlash` | flash.go:20-39 | Round trip: start with no flash table, add a sequence of messages, then read. The read returns, for each category, exactly the messages added to it, in order. Afterwards no flash table is pending, the `_flash_` key is gone when anything was added, and no other key has changed. |
| `FlashMessages.AddsToDistinctCategoriesCommute` | flash.go:22-27 | Two additions to different categories give the same session values in either order. |
| `FlashMessages.AddFlashForcesPersist` | session.go:47-50 | After `AddFlash` the values are non-empty, so `Save` calls the store even for a new session. |
| `Lifecycle.SuccessMessageAcrossTwoRequests` | flash.go:20-39 | First request, new session: adding `success: Saved!` makes `Save` persist exactly `{_flash_: {success: [Saved!]}}`. Second request with that session: `Flash` returns `{success: [Saved!]}`, leaves the values empty, and `Save` persists them. |

## Left out

- The type registration in `init` (flash.go:8-12) is a process-wide side effect for the store's encoder, with no behaviour to state.
- The session store itself is external: cookie encoding, signing and encryption, and backing-store I/O. Its `Get` is a function parameter and the outcome of its save is an input. The store's promise that a request without a cookie gets a new, empty session is the store's contract, not this package's. The lifecycle scenario takes it as given.
- Logging is left out, and the error response is kept as a status and a body, not written to a response writer.
- The context mechanics (`context.WithValue`, the private key type) are reduced to the request's `attached` field. All other request contents are reduced to `target`.
- The type-assertion panics (session.go:40, flash.go:23, flash.go:35) are preconditions. The request carries a session, and a present non-nil `_flash_` value is a flash table (`WellTyped`). A `_flash_` entry holding a typed nil table is not modelled either: the model has no such value.
- Session keys are strings. The store accepts keys of any type, but this package only uses the string key `_flash_`, and other keys only need to stay unchanged.
- Aliasing is not modelled. In the source, `Flash` returns the very map object that was stored, and `AddFlash` mutates the stored map through the interface. The model replaces the table by value.
- `NewHandler` (session.go:34-36) only stores its two arguments. In the model the store is the parameter of `ServeHTTP`, and a `Forwarded` outcome stands for the single call of the wrapped handler.
