TestResult.DisplayName,TestResult.Outcome,TestResult.Duration,TestResult.ResourceCount,RandomSeed
LevelManager.PutKeepsValid (correctness),Failed,00:00:00.7262678,2030106,1
